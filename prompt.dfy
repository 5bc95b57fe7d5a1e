/** The read-validate-retry loop `get_input`. The terminal is replaced by a
    finite sequence of input lines and a transcript of what is written:
    the prompt shown by each read, the end-of-bold sequence written after
    each read, and one failure line for each rejected line. */
module Prompt {
  import opened Validators

  datatype Option<T> = None | Some(value: T)

  /** The copies of the loop in the repository. Only `Validin` lets the
      condition be left out and drops the colon from an empty message. */
  datatype Copy =
    | Validin        // validin/__init__.py
    | SingleFile     // input_validator.py
    | UserInput      // user_input.py
    | LegacyPackage  // input_validator/input_validator.py

  /** The sequence that switches the terminal to bold. */
  const BoldStart: string := "\U{1B}[1m"

  /** What the loop writes. */
  datatype Event =
    | ShowPrompt(text: string)  // written by the read before it waits
    | EndBold                   // the end-of-formatting sequence
    | PrintLine(text: string)   // a failure line

  /** The text each read shows. */
  function PromptText(prompt: string, bold: bool): (r: string)
    ensures prompt <= r
    ensures r == prompt <==> !bold
  {
    if bold then prompt + BoldStart else prompt
  }

  /** A line passes when there is no condition or the condition holds. */
  predicate Accepts<A>(condition: Option<Validator<A>>, line: string)
  {
    condition.None? || condition.value.IsValid(line)
  }

  /** The failure line printed for a message: the colon is left out only
      by the validin copy and only when the message is empty. */
  function FailureText(copy: Copy, message: string): (r: string)
    ensures "Invalid Input" <= r
    ensures r == "Invalid Input" <==> copy == Validin && message == ""
    ensures r != "Invalid Input" ==> r == "Invalid Input: " + message
  {
    if copy == Validin && message == "" then "Invalid Input" else "Invalid Input: " + message
  }

  /** The validin copy builds its failure line by prefixing a non-empty
      message with ": ". */
  lemma ValidinFailureText(message: string)
    ensures FailureText(Validin, message)
            == "Invalid Input" + (if message != "" then ": " + message else message)
  {
    if message != "" {
      assert "Invalid Input" + (": " + message) == ("Invalid Input" + ": ") + message;
      assert "Invalid Input" + ": " == "Invalid Input: ";
    }
  }

  /** The position of the line the loop returns: the first one that
      passes, if any does. */
  function FirstAccepted<A>(condition: Option<Validator<A>>, lines: seq<string>): (k: Option<nat>)
    ensures k.Some? ==> k.value < |lines| && Accepts(condition, lines[k.value])
    ensures k.Some? ==> forall j :: 0 <= j < k.value ==> !Accepts(condition, lines[j])
    ensures k.None? ==> forall j :: 0 <= j < |lines| ==> !Accepts(condition, lines[j])
  {
    if lines == [] then None
    else if Accepts(condition, lines[0]) then Some(0)
    else match FirstAccepted(condition, lines[1..])
      case None => None
      case Some(k) => Some(k + 1)
  }

  /** The first passing line is unique: the position where a line passes
      and none before it does is the one `FirstAccepted` names. */
  lemma FirstAcceptedUnique<A>(condition: Option<Validator<A>>, lines: seq<string>, k: nat)
    requires k < |lines| && Accepts(condition, lines[k])
    requires forall j :: 0 <= j < k ==> !Accepts(condition, lines[j])
    ensures FirstAccepted(condition, lines) == Some(k)
  {
  }

  /** What the loop writes while it consumes `lines`: for each line a
      prompt and the end-of-bold sequence, then a failure line if the line
      is rejected. When every line is rejected the loop shows the prompt
      once more and waits. */
  function Transcript<A>(prompt: string, condition: Option<Validator<A>>, bold: bool, copy: Copy,
                         lines: seq<string>): seq<Event>
  {
    var shown := ShowPrompt(PromptText(prompt, bold));
    if lines == [] then [shown]
    else if Accepts(condition, lines[0]) then [shown, EndBold]
    else [shown, EndBold, PrintLine(FailureText(copy, condition.value.InvalidMsg()))]
         + Transcript(prompt, condition, bold, copy, lines[1..])
  }

  /** One turn of the loop on an accepted line: the prompt and the end of
      bold complete the transcript. */
  lemma AcceptStep<A>(prompt: string, condition: Option<Validator<A>>, bold: bool, copy: Copy,
                      lines: seq<string>, i: nat, done: seq<Event>)
    requires i < |lines| && Accepts(condition, lines[i])
    requires done + Transcript(prompt, condition, bold, copy, lines[i..])
             == Transcript(prompt, condition, bold, copy, lines)
    ensures done + [ShowPrompt(PromptText(prompt, bold)), EndBold]
            == Transcript(prompt, condition, bold, copy, lines)
  {
    assert lines[i..][0] == lines[i];
  }

  /** One turn of the loop on a rejected line: the prompt, the end of bold
      and the failure line come before the transcript of the remaining
      lines. */
  lemma RejectStep<A>(prompt: string, condition: Option<Validator<A>>, bold: bool, copy: Copy,
                      lines: seq<string>, i: nat, done: seq<Event>)
    requires i < |lines| && !Accepts(condition, lines[i])
    requires done + Transcript(prompt, condition, bold, copy, lines[i..])
             == Transcript(prompt, condition, bold, copy, lines)
    ensures done + [ShowPrompt(PromptText(prompt, bold)), EndBold]
            + [PrintLine(FailureText(copy, condition.value.InvalidMsg()))]
            + Transcript(prompt, condition, bold, copy, lines[i + 1..])
            == Transcript(prompt, condition, bold, copy, lines)
  {
    assert lines[i..][0] == lines[i] && lines[i..][1..] == lines[i + 1..];
  }

  /** `get_input(prompt, condition, bold)`: read lines until one passes and
      return it as read. `None` means every line was rejected and the loop
      is waiting for another. The legacy copies require a condition. */
  method GetInput<A>(prompt: string, condition: Option<Validator<A>>, bold: bool, copy: Copy,
                     lines: seq<string>)
    returns (line: Option<string>, output: seq<Event>)
    requires copy != Validin ==> condition.Some?
    ensures line.Some? <==> FirstAccepted(condition, lines).Some?
    ensures line.Some? ==> line.value == lines[FirstAccepted(condition, lines).value]
    ensures line.Some? ==> Accepts(condition, line.value)
    ensures output == Transcript(prompt, condition, bold, copy, lines)
  {
    var format := if bold then BoldStart else "";
    var i := 0;
    output := [];
    while true
      invariant 0 <= i <= |lines|
      invariant forall j :: 0 <= j < i ==> !Accepts(condition, lines[j])
      invariant output + Transcript(prompt, condition, bold, copy, lines[i..])
                == Transcript(prompt, condition, bold, copy, lines)
      decreases |lines| - i
    {
      if i == |lines| {
        assert lines[i..] == [] && PromptText(prompt, bold) == prompt + format;
        output := output + [ShowPrompt(prompt + format)];
        return None, output;
      }
      var raw := lines[i];
      assert PromptText(prompt, bold) == prompt + format;
      ghost var done := output;
      i := i + 1;
      output := output + [ShowPrompt(prompt + format), EndBold];
      if condition.None? || condition.value.IsValid(raw) {
        AcceptStep(prompt, condition, bold, copy, lines, i - 1, done);
        FirstAcceptedUnique(condition, lines, i - 1);
        return Some(raw), output;
      }
      RejectStep(prompt, condition, bold, copy, lines, i - 1, done);
      var message := condition.value.InvalidMsg();
      if copy == Validin {
        ValidinFailureText(message);
        if message != "" {
          message := ": " + message;
        }
        output := output + [PrintLine("Invalid Input" + message)];
      } else {
        output := output + [PrintLine("Invalid Input: " + message)];
      }
    }
  }

  /** The user_input.py signature: extra condition arguments are accepted
      and ignored, the condition is required, and the colon is always
      printed. */
  method GetInputIgnoringArgs<A, B>(prompt: string, condition: Validator<A>, conditionArgs: seq<B>,
                                    bold: bool, lines: seq<string>)
    returns (line: Option<string>, output: seq<Event>)
    ensures line.Some? <==> FirstAccepted(Some(condition), lines).Some?
    ensures line.Some? ==> line.value == lines[FirstAccepted(Some(condition), lines).value]
    ensures line.Some? ==> condition.IsValid(line.value)
    ensures output == Transcript(prompt, Some(condition), bold, UserInput, lines)
  {
    line, output := GetInput(prompt, Some(condition), bold, UserInput, lines);
  }

  // ---------------------------------------------------------------------
  // Properties of the loop.

  /** Without a condition the first line read is returned as it is. */
  lemma NoConditionReturnsFirstLine<A>(prompt: string, bold: bool, copy: Copy, lines: seq<string>)
    requires |lines| >= 1
    ensures FirstAccepted(Option<Validator<A>>.None, lines) == Some(0)
    ensures Transcript(prompt, Option<Validator<A>>.None, bold, copy, lines)
            == [ShowPrompt(PromptText(prompt, bold)), EndBold]
  {
  }

  /** One rejected round: prompt, end of bold, failure line. */
  function RejectedRound(promptText: string, failure: string): seq<Event>
  {
    [ShowPrompt(promptText), EndBold, PrintLine(failure)]
  }

  /** `n` copies of a round. */
  function Repeat(round: seq<Event>, n: nat): seq<Event>
  {
    if n == 0 then [] else round + Repeat(round, n - 1)
  }

  /** The message the condition would print, if there is a condition. */
  function MessageOf<A>(condition: Option<Validator<A>>): string
  {
    if condition.Some? then condition.value.InvalidMsg() else ""
  }

  lemma {:induction false} RepeatSucc(round: seq<Event>, n: nat)
    ensures Repeat(round, n + 1) == round + Repeat(round, n)
  {
  }

  /** The whole transcript in closed form: one identical rejected round for
      each line read before the returned one, then the prompt and the end
      of bold for the returned line (or, when none passes, the prompt the
      loop waits at). */
  predicate ClosedForm<A>(prompt: string, condition: Option<Validator<A>>, bold: bool, copy: Copy,
                          lines: seq<string>)
  {
    var t := Transcript(prompt, condition, bold, copy, lines);
    var round := RejectedRound(PromptText(prompt, bold), FailureText(copy, MessageOf(condition)));
    match FirstAccepted(condition, lines)
    case Some(k) => t == Repeat(round, k) + [ShowPrompt(PromptText(prompt, bold)), EndBold]
    case None => t == Repeat(round, |lines|) + [ShowPrompt(PromptText(prompt, bold))]
  }

  /** Every transcript has the closed form. */
  lemma {:induction false} TranscriptClosedForm<A>(prompt: string, condition: Option<Validator<A>>,
                                                   bold: bool, copy: Copy, lines: seq<string>)
    ensures ClosedForm(prompt, condition, bold, copy, lines)
  {
    var shown := ShowPrompt(PromptText(prompt, bold));
    var round := RejectedRound(PromptText(prompt, bold), FailureText(copy, MessageOf(condition)));
    var t := Transcript(prompt, condition, bold, copy, lines);
    if lines == [] {
      assert t == Repeat(round, 0) + [shown];
    } else if Accepts(condition, lines[0]) {
      assert t == Repeat(round, 0) + [shown, EndBold];
    } else {
      TranscriptClosedForm(prompt, condition, bold, copy, lines[1..]);
      ClosedFormRejected(prompt, condition, bold, copy, lines);
    }
  }

  /** A rejected first line adds one round in front of the closed form of
      the rest. */
  lemma ClosedFormRejected<A>(prompt: string, condition: Option<Validator<A>>, bold: bool, copy: Copy,
                              lines: seq<string>)
    requires |lines| >= 1 && !Accepts(condition, lines[0])
    requires ClosedForm(prompt, condition, bold, copy, lines[1..])
    ensures ClosedForm(prompt, condition, bold, copy, lines)
  {
    var shown := ShowPrompt(PromptText(prompt, bold));
    var round := RejectedRound(PromptText(prompt, bold), FailureText(copy, MessageOf(condition)));
    var t' := Transcript(prompt, condition, bold, copy, lines[1..]);
    assert Transcript(prompt, condition, bold, copy, lines) == round + t';
    match FirstAccepted(condition, lines[1..])
    case Some(k) =>
      PrependRound(round, k, [shown, EndBold], t');
    case None =>
      PrependRound(round, |lines[1..]|, [shown], t');
  }

  lemma PrependRound(round: seq<Event>, n: nat, tail: seq<Event>, t: seq<Event>)
    requires t == Repeat(round, n) + tail
    ensures round + t == Repeat(round, n + 1) + tail
  {
    RepeatSucc(round, n);
  }

  /** The number of failure lines in a transcript. */
  function Failures(t: seq<Event>): nat
  {
    if t == [] then 0 else (if t[0].PrintLine? then 1 else 0) + Failures(t[1..])
  }

  lemma {:induction false} FailuresAppend(a: seq<Event>, b: seq<Event>)
    ensures Failures(a + b) == Failures(a) + Failures(b)
  {
    if a == [] {
      assert a + b == b;
    } else {
      FailuresAppend(a[1..], b);
      assert (a + b)[0] == a[0] && (a + b)[1..] == a[1..] + b;
    }
  }

  /** A rejected round holds exactly one failure line. */
  lemma FailuresOfRound(promptText: string, failure: string)
    ensures Failures(RejectedRound(promptText, failure)) == 1
  {
    var last := [PrintLine(failure)];
    var round := RejectedRound(promptText, failure);
    assert last[1..] == [] && Failures(last) == 1;
    assert round[1..] == [EndBold] + last && Failures([EndBold] + last) == Failures(last);
    assert round == [ShowPrompt(promptText)] + round[1..];
  }

  /** The events after the last round hold no failure line. */
  lemma NoFailuresAfterRounds(promptText: string)
    ensures Failures([ShowPrompt(promptText)]) == 0
    ensures Failures([ShowPrompt(promptText), EndBold]) == 0
  {
    assert [ShowPrompt(promptText)][1..] == [];
    assert [ShowPrompt(promptText), EndBold][1..] == [EndBold] && [EndBold][1..] == [];
  }

  lemma {:induction false} FailuresRepeat(round: seq<Event>, n: nat)
    requires Failures(round) == 1
    ensures Failures(Repeat(round, n)) == n
  {
    if n > 0 {
      FailuresRepeat(round, n - 1);
      FailuresAppend(round, Repeat(round, n - 1));
    }
  }

  /** Exactly one failure line is printed for each line read before the
      returned one, and one for each line when none passes. */
  lemma FailureCount<A>(prompt: string, condition: Option<Validator<A>>,
                        bold: bool, copy: Copy, lines: seq<string>)
    ensures var t := Transcript(prompt, condition, bold, copy, lines);
      match FirstAccepted(condition, lines)
      case Some(k) => Failures(t) == k
      case None => Failures(t) == |lines|
  {
    var shown := ShowPrompt(PromptText(prompt, bold));
    var round := RejectedRound(PromptText(prompt, bold), FailureText(copy, MessageOf(condition)));
    TranscriptClosedForm(prompt, condition, bold, copy, lines);
    FailuresOfRound(PromptText(prompt, bold), FailureText(copy, MessageOf(condition)));
    NoFailuresAfterRounds(PromptText(prompt, bold));
    match FirstAccepted(condition, lines)
    case Some(k) =>
      FailuresRepeat(round, k);
      FailuresAppend(Repeat(round, k), [shown, EndBold]);
    case None =>
      FailuresRepeat(round, |lines|);
      FailuresAppend(Repeat(round, |lines|), [shown]);
  }

  /** All four copies write the same transcript for a built-in validator,
      whose message is never empty. */
  lemma {:induction false} CopiesAgreeOnBuiltins<A>(prompt: string, v: Validator<A>, bold: bool,
                                                    copy: Copy, lines: seq<string>)
    requires !v.NewValidator?
    ensures Transcript(prompt, Some(v), bold, copy, lines) == Transcript(prompt, Some(v), bold, Validin, lines)
  {
    BuiltinMessageNonEmpty(v);
    if lines != [] && !Accepts(Some(v), lines[0]) {
      CopiesAgreeOnBuiltins(prompt, v, bold, copy, lines[1..]);
    }
  }

  /** For a wrapper built without a message, the validin copy prints
      "Invalid Input" and the legacy copies print "Invalid Input: ". */
  lemma CopiesDifferOnEmptyMessage<A>(prompt: string, condition: (string, seq<A>) -> bool, args: seq<A>,
                                      copy: Copy, line: string)
    requires copy != Validin
    requires !condition(line, args)
    ensures Transcript(prompt, Some(NewValidator(condition, args)), false, Validin, [line])
            == [ShowPrompt(prompt), EndBold, PrintLine("Invalid Input"), ShowPrompt(prompt)]
    ensures Transcript(prompt, Some(NewValidator(condition, args)), false, copy, [line])
            == [ShowPrompt(prompt), EndBold, PrintLine("Invalid Input: "), ShowPrompt(prompt)]
  {
    var v := NewValidator(condition, args);
    CustomValidatorForwards(v, line);
    assert v.InvalidMsg() == "";
    assert !Accepts(Some(v), line);
    assert [line][0] == line && [line][1..] == [];
    assert Transcript(prompt, Some(v), false, Validin, []) == [ShowPrompt(prompt)];
    assert Transcript(prompt, Some(v), false, copy, []) == [ShowPrompt(prompt)];
    assert FailureText(copy, "") == "Invalid Input: " + "" == "Invalid Input: ";
  }

  /** A rejected line followed by an accepted one: one failure line,
      and the second line is returned after the second prompt. */
  lemma RejectThenAccept<A>(prompt: string, v: Validator<A>, bold: bool, copy: Copy, bad: string, good: string)
    requires !v.IsValid(bad) && v.IsValid(good)
    ensures FirstAccepted(Some(v), [bad, good]) == Some(1)
    ensures var shown := ShowPrompt(PromptText(prompt, bold));
      Transcript(prompt, Some(v), bold, copy, [bad, good])
      == [shown, EndBold, PrintLine(FailureText(copy, v.InvalidMsg())), shown, EndBold]
  {
    var lines := [bad, good];
    assert lines[0] == bad && lines[1..] == [good];
    assert [good][0] == good;
  }

  /** An empty line against IsLetters is rejected with one failure line,
      and the next line "abc" is returned. */
  lemma LettersEndToEnd<A>(prompt: string)
    ensures FirstAccepted(Some(Validator<A>.IsLetters), ["", "abc"]) == Some(1)
    ensures Transcript(prompt, Some(Validator<A>.IsLetters), true, Validin, ["", "abc"])
            == [ShowPrompt(prompt + BoldStart), EndBold, PrintLine("Invalid Input: Must only contain letters"),
                ShowPrompt(prompt + BoldStart), EndBold]
  {
    var v := Validator<A>.IsLetters;
    LettersExamples();
    RejectThenAccept(prompt, v, true, Validin, "", "abc");
    assert v.InvalidMsg() == "Must only contain letters";
    LettersFailureLine();
  }

  /** The failure line for the IsLetters message, spelled out. */
  lemma LettersFailureLine()
    ensures FailureText(Validin, "Must only contain letters") == "Invalid Input: Must only contain letters"
  {
    assert "Invalid Input: " + "Must only contain letters" == "Invalid Input: Must only contain letters";
  }


}
