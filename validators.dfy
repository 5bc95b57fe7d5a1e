/** The validator family: each validator is a fixed configuration together
    with a total test on one input string and a failure message that does
    not depend on the input. Character classes are those of ASCII. */
module Validators {
  import opened Utils

  predicate IsLetter(c: char) { 'a' <= c <= 'z' || 'A' <= c <= 'Z' }

  predicate IsDigit(c: char) { '0' <= c <= '9' }

  /** The two character classes the text rules test against. */
  datatype TextClass = Alpha | Alnum

  predicate InClass(k: TextClass, c: char)
  {
    IsLetter(c) || (k == Alnum && IsDigit(c))
  }

  /** `s.isalpha()` (class Alpha) and `s.isalnum()` (class Alnum): at least
      one character, and every character in the class. */
  predicate AllInClass(k: TextClass, s: string)
  {
    |s| > 0 && forall c :: c in s ==> InClass(k, c)
  }

  /** `s.isdigit()`. */
  predicate AllDigits(s: string)
  {
    |s| > 0 && forall i :: 0 <= i < |s| ==> IsDigit(s[i])
  }

  /** `int(s)` for a string of decimal digits. */
  function DecimalValue(s: string): nat
    requires forall i :: 0 <= i < |s| ==> IsDigit(s[i])
  {
    if s == [] then 0
    else
      assert IsDigit(s[|s| - 1]);
      10 * DecimalValue(s[..|s| - 1]) + (s[|s| - 1] as int - '0' as int)
  }

  function DigitChar(d: nat): char
    requires d < 10
  {
    ('0' as int + d) as char
  }

  /** `str(n)` for a natural number: its decimal digits, no leading zero. */
  function NatToString(n: nat): string
  {
    if n < 10 then [DigitChar(n)] else NatToString(n / 10) + [DigitChar(n % 10)]
  }

  /** `str(n)` (and an f-string field) for any integer. */
  function IntToString(n: int): string
  {
    if n < 0 then "-" + NatToString(-n) else NatToString(n)
  }

  /** Printing a natural number and reading it back gives the number. */
  lemma {:induction false} DecimalRoundTrip(n: nat)
    ensures AllDigits(NatToString(n))
    ensures DecimalValue(NatToString(n)) == n
  {
    var s := NatToString(n);
    if n >= 10 {
      DecimalRoundTrip(n / 10);
      var p := NatToString(n / 10);
      assert s == p + [DigitChar(n % 10)];
      assert s[..|s| - 1] == p;
    }
  }

  /** The value of a digit string is positive exactly when some digit is
      not zero. */
  lemma {:induction false} DecimalPositive(s: string)
    requires forall i :: 0 <= i < |s| ==> IsDigit(s[i])
    ensures DecimalValue(s) > 0 <==> exists i :: 0 <= i < |s| && s[i] != '0'
  {
    if s != [] {
      var p := s[..|s| - 1];
      DecimalPositive(p);
      if exists i :: 0 <= i < |p| && p[i] != '0' {
        var i :| 0 <= i < |p| && p[i] != '0';
        assert s[i] == p[i];
      }
      if exists i :: 0 <= i < |s| && s[i] != '0' {
        var i :| 0 <= i < |s| && s[i] != '0';
        if i < |p| {
          assert p[i] == s[i];
        }
      }
    }
  }

  // ---------------------------------------------------------------------
  // The rules, one per built-in validator class.

  /** IsNaturalNum: all digits and a value above zero. */
  predicate NaturalNumRule(input: string)
  {
    AllDigits(input) && DecimalValue(input) > 0
  }

  /** IsNaturalNumLessThan(limit): the natural-number rule and a value
      below the limit. */
  predicate NaturalNumLessThanRule(limit: int, input: string)
  {
    NaturalNumRule(input) && DecimalValue(input) < limit
  }

  /** IsLetters: spaces removed, the rest is letters. */
  predicate LettersRule(input: string)
  {
    AllInClass(Alpha, Replace(input, " "))
  }

  /** IsLettersAndSymbols(*symbols): symbols removed, then spaces, the
      rest is letters. */
  predicate LettersAndSymbolsRule(symbols: seq<string>, input: string)
  {
    AllInClass(Alpha, Replace(Stripped(input, symbols), " "))
  }

  /** IsAlphanumeric: spaces removed, the rest is letters and digits. */
  predicate AlphanumericRule(input: string)
  {
    AllInClass(Alnum, Replace(input, " "))
  }

  /** IsAlphanumericAndSymbols(*symbols): symbols removed, then spaces,
      the rest is letters and digits. */
  predicate AlphanumericAndSymbolsRule(symbols: seq<string>, input: string)
  {
    AllInClass(Alnum, Replace(Stripped(input, symbols), " "))
  }

  /** IsOption(*options): the input is one of the options exactly. */
  predicate OptionRule(options: seq<string>, input: string)
  {
    input in options
  }

  const OptionPrefix: string := "Must be one of the following: "

  /** A validator: one of the built-in classes with its configuration, or
      the wrapper around a caller's predicate. The predicate receives the
      input followed by the fixed extra arguments, which the model passes
      as one sequence. */
  datatype Validator<!A> =
    | NewValidator(condition: (string, seq<A>) -> bool, args: seq<A>, nameonly invalidMsg: string := "")
    | IsNaturalNum
    | IsNaturalNumLessThan(limit: int)
    | IsLetters
    | IsLettersAndSymbols(symbols: seq<string>)
    | IsAlphanumeric
    | IsAlphanumericAndSymbols(symbols: seq<string>)
    | IsOption(options: seq<string>)
  {
    /** `is_valid(input)`. */
    predicate IsValid(input: string)
    {
      match this
      case NewValidator(condition, args, _) => condition(input, args)
      case IsNaturalNum => NaturalNumRule(input)
      case IsNaturalNumLessThan(limit) => NaturalNumLessThanRule(limit, input)
      case IsLetters => LettersRule(input)
      case IsLettersAndSymbols(symbols) => LettersAndSymbolsRule(symbols, input)
      case IsAlphanumeric => AlphanumericRule(input)
      case IsAlphanumericAndSymbols(symbols) => AlphanumericAndSymbolsRule(symbols, input)
      case IsOption(options) => OptionRule(options, input)
    }

    /** `get_invalid_msg()`: it takes no input, so it cannot depend on the
        rejected line. */
    function InvalidMsg(): string
    {
      match this
      case NewValidator(_, _, msg) => msg
      case IsNaturalNum => "Must be a whole number greater than 0"
      case IsNaturalNumLessThan(limit) => "Must be a whole number between 0 and " + IntToString(limit)
      case IsLetters => "Must only contain letters"
      case IsLettersAndSymbols(symbols) => "Must only contain letters and " + ListAsStr(symbols)
      case IsAlphanumeric => "Must only contain letters or numbers"
      case IsAlphanumericAndSymbols(symbols) => "Must only contain letters, numbers and " + ListAsStr(symbols)
      case IsOption(options) => OptionPrefix + ListAsStr(options)
    }
  }

  // ---------------------------------------------------------------------
  // The custom-predicate wrapper.

  /** The wrapper gives the predicate's own answer on the input and the
      fixed arguments, and the message is the one it was built with. */
  lemma CustomValidatorForwards<A>(v: Validator<A>, input: string)
    requires v.NewValidator?
    ensures v.IsValid(input) == v.condition(input, v.args)
    ensures v.InvalidMsg() == v.invalidMsg
  {
  }

  /** Without a message the wrapper's message is empty. */
  lemma CustomValidatorDefaultMessage<A>(condition: (string, seq<A>) -> bool, args: seq<A>)
    ensures NewValidator(condition, args).InvalidMsg() == ""
  {
  }

  // ---------------------------------------------------------------------
  // The natural-number rules.

  /** Accepted exactly when the input is a non-empty string of digits with
      at least one digit other than zero; nothing is trimmed. */
  lemma NaturalNumIff(input: string)
    ensures NaturalNumRule(input) <==>
      AllDigits(input) && exists i :: 0 <= i < |input| && input[i] != '0'
  {
    if AllDigits(input) {
      DecimalPositive(input);
    }
  }

  /** An input containing a space is never a natural number. */
  lemma NaturalNumRejectsSpaces(input: string)
    requires ' ' in input
    ensures !NaturalNumRule(input)
  {
    var i :| 0 <= i < |input| && input[i] == ' ';
    assert !IsDigit(input[i]);
  }

  lemma NaturalNumExamples()
    ensures NaturalNumRule("2")
    ensures NaturalNumRule("4321894523432732454315")
    ensures !NaturalNumRule("0")
    ensures !NaturalNumRule("")
    ensures !NaturalNumRule("-2")
    ensures !NaturalNumRule("14.13")
    ensures !NaturalNumRule("foo")
    ensures !NaturalNumRule("3f")
    ensures !NaturalNumRule("1 0")
    ensures !NaturalNumRule("1 ")
    ensures !NaturalNumRule("  49 ")
  {
    NaturalNumIff("4321894523432732454315");
    assert "4321894523432732454315"[0] != '0';
    assert !IsDigit("-2"[0]);
    assert !IsDigit("14.13"[2]);
    assert !IsDigit("foo"[0]);
    assert !IsDigit("3f"[1]);
    NaturalNumRejectsSpaces("1 0");
    NaturalNumRejectsSpaces("1 ");
    NaturalNumRejectsSpaces("  49 ");
  }

  /** The bounded rule accepts only natural numbers, accepts more as the
      limit grows, and accepts nothing when the limit is at most 1. */
  lemma LessThanWithinNaturalNum(limit: int, bigger: int, input: string)
    requires limit <= bigger
    ensures NaturalNumLessThanRule(limit, input) ==> NaturalNumRule(input)
    ensures NaturalNumLessThanRule(limit, input) ==> NaturalNumLessThanRule(bigger, input)
    ensures limit <= 1 ==> !NaturalNumLessThanRule(limit, input)
  {
  }

  /** Written the way the message writes it, a number `n` is accepted by
      the bounded rule exactly when 0 < n < limit; in particular the limit
      shown in the message is itself rejected. */
  lemma LessThanAcceptsExactly(limit: int, n: nat)
    ensures NaturalNumLessThanRule(limit, NatToString(n)) <==> 0 < n < limit
    ensures !NaturalNumLessThanRule(limit, IntToString(limit))
  {
    DecimalRoundTrip(n);
    if limit >= 0 {
      DecimalRoundTrip(limit);
    } else {
      assert !IsDigit(IntToString(limit)[0]);
    }
  }

  // ---------------------------------------------------------------------
  // The text rules.

  /** A text class test on what is left after dropping a set of characters:
      everything else belongs to the class, and something else is there. */
  lemma AllInClassKeep(k: TextClass, s: string, drop: set<char>)
    ensures AllInClass(k, Keep(s, drop)) <==>
      (forall c :: c in s ==> c in drop || InClass(k, c)) && (exists c :: c in s && c !in drop)
  {
    forall c {
      KeepMembers(s, drop, c);
    }
    if exists c :: c in s && c !in drop {
      var c :| c in s && c !in drop;
      assert c in Keep(s, drop);
    }
  }

  /** The text rules without symbols: every character is a space or in the
      class, and at least one is not a space. */
  lemma {:induction false} PlainTextRule(k: TextClass, input: string)
    ensures AllInClass(k, Replace(input, " ")) <==>
      (forall c :: c in input ==> c == ' ' || InClass(k, c)) && (exists c :: c in input && c != ' ')
  {
    ReplaceOneChar(input, ' ');
    assert " " == [' '];
    AllInClassKeep(k, input, {' '});
  }

  /** The text rules with one-character symbols: every character is a
      space, a symbol or in the class, and at least one is neither a space
      nor a symbol. */
  lemma {:induction false} SymbolTextRule(k: TextClass, symbols: seq<string>, input: string)
    requires SingleChars(symbols)
    ensures AllInClass(k, Replace(Stripped(input, symbols), " ")) <==>
      (forall c :: c in input ==> c == ' ' || c in CharsOf(symbols) || InClass(k, c)) &&
      (exists c :: c in input && c != ' ' && c !in CharsOf(symbols))
  {
    var d := CharsOf(symbols);
    StrippedSingleChars(input, symbols);
    assert " " == [' '];
    ReplaceOneChar(Keep(input, d), ' ');
    KeepTwice(input, d, {' '});
    AllInClassKeep(k, input, d + {' '});
  }

  /** IsLetters accepts exactly the inputs made of letters and spaces with
      at least one letter: spaces are allowed anywhere, and an empty or
      all-space input is rejected. */
  lemma LettersIff(input: string)
    ensures LettersRule(input) <==>
      (forall c :: c in input ==> c == ' ' || IsLetter(c)) && (exists c :: c in input && IsLetter(c))
  {
    PlainTextRule(Alpha, input);
  }

  /** IsAlphanumeric accepts exactly the inputs made of letters, digits and
      spaces with at least one letter or digit. */
  lemma AlphanumericIff(input: string)
    ensures AlphanumericRule(input) <==>
      (forall c :: c in input ==> c == ' ' || IsLetter(c) || IsDigit(c)) &&
      (exists c :: c in input && (IsLetter(c) || IsDigit(c)))
  {
    PlainTextRule(Alnum, input);
  }

  /** IsLettersAndSymbols with one-character symbols accepts exactly the
      inputs made of letters, spaces and symbols with at least one character
      that is neither a space nor a symbol (and so is a letter). */
  lemma LettersAndSymbolsIff(symbols: seq<string>, input: string)
    requires SingleChars(symbols)
    ensures LettersAndSymbolsRule(symbols, input) <==>
      (forall c :: c in input ==> c == ' ' || c in CharsOf(symbols) || IsLetter(c)) &&
      (exists c :: c in input && c != ' ' && c !in CharsOf(symbols))
  {
    SymbolTextRule(Alpha, symbols, input);
  }

  /** IsAlphanumericAndSymbols with one-character symbols: the same with
      letters or digits. */
  lemma AlphanumericAndSymbolsIff(symbols: seq<string>, input: string)
    requires SingleChars(symbols)
    ensures AlphanumericAndSymbolsRule(symbols, input) <==>
      (forall c :: c in input ==> c == ' ' || c in CharsOf(symbols) || IsLetter(c) || IsDigit(c)) &&
      (exists c :: c in input && c != ' ' && c !in CharsOf(symbols))
  {
    SymbolTextRule(Alnum, symbols, input);
  }

  /** An input made only of spaces and one-character symbols (the empty
      input included) is rejected by every text rule. */
  lemma OnlySpacesAndSymbolsRejected(symbols: seq<string>, input: string)
    requires SingleChars(symbols)
    requires forall c :: c in input ==> c == ' ' || c in CharsOf(symbols)
    ensures !LettersAndSymbolsRule(symbols, input) && !AlphanumericAndSymbolsRule(symbols, input)
    ensures !LettersRule(Stripped(input, symbols)) && !AlphanumericRule(Stripped(input, symbols))
  {
    SymbolTextRule(Alpha, symbols, input);
    SymbolTextRule(Alnum, symbols, input);
    StrippedSingleCharsMembership(input, symbols, ' ');
    forall c | c in Stripped(input, symbols) ensures c == ' ' {
      StrippedSingleCharsMembership(input, symbols, c);
    }
    PlainTextRule(Alpha, Stripped(input, symbols));
    PlainTextRule(Alnum, Stripped(input, symbols));
  }

  /** With no symbols, or with symbols none of which occurs in the input,
      the symbol rules answer as the plain rules. */
  lemma {:induction false} AbsentSymbolsChangeNothing(symbols: seq<string>, input: string)
    requires forall i :: 0 <= i < |symbols| ==> !Occurs(symbols[i], input)
    ensures LettersAndSymbolsRule(symbols, input) == LettersRule(input)
    ensures AlphanumericAndSymbolsRule(symbols, input) == AlphanumericRule(input)
  {
    StrippedAbsent(input, symbols);
  }

  /** Whatever IsLetters accepts, IsAlphanumeric accepts; and whatever
      IsNaturalNum accepts, IsAlphanumeric accepts too. */
  lemma {:induction false} RuleInclusions(input: string)
    ensures LettersRule(input) ==> AlphanumericRule(input)
    ensures NaturalNumRule(input) ==> AlphanumericRule(input)
  {
    PlainTextRule(Alpha, input);
    PlainTextRule(Alnum, input);
    if NaturalNumRule(input) {
      forall c | c in input ensures IsDigit(c) {
        var i :| 0 <= i < |input| && input[i] == c;
      }
      assert input[0] in input;
    }
  }

  lemma LettersAndSymbolsAccepts()
    ensures LettersAndSymbolsRule(["!", "."], "Hi!")
  {
    var symbols := ["!", "."];
    assert CharsOf(symbols) == {'!', '.'};
    LettersAndSymbolsIff(symbols, "Hi!");
    assert "Hi!"[0] == 'H';
  }

  /** The symbols are separate arguments: passed as the one string "!.",
      they are removed only where "!." occurs as a whole, so "Hi!" keeps
      its '!' and is rejected. */
  lemma LettersAndSymbolsOneStringRejects()
    ensures !LettersAndSymbolsRule(["!."], "Hi!")
  {
    var t := "Hi!";
    assert !Occurs("!.", t) by {
      forall i | 0 <= i <= |t| ensures !("!." <= t[i..]) {
        if i < |t| {
          assert t[i] == '!' ==> i == 2;
        }
      }
    }
    StrippedAbsent(t, ["!."]);
    assert !Occurs(" ", t) by {
      forall i | 0 <= i <= |t| ensures !(" " <= t[i..]) {
        if i < |t| {
          assert t[i] != ' ';
        }
      }
    }
    ReplaceAbsent(t, " ");
    assert t[2] in t && !IsLetter(t[2]);
  }

  lemma LettersAndSymbolsRejects()
    ensures !LettersAndSymbolsRule(["!", "."], "Hi1")
  {
    var symbols := ["!", "."];
    assert CharsOf(symbols) == {'!', '.'};
    LettersAndSymbolsIff(symbols, "Hi1");
    assert "Hi1"[2] in "Hi1" && "Hi1"[2] == '1';
  }

  lemma LettersAndSymbolsRejectsBlank()
    ensures !LettersAndSymbolsRule(["!", "."], "")
    ensures !LettersAndSymbolsRule(["!", "."], "   ")
  {
    var symbols := ["!", "."];
    assert SingleChars(symbols);
    OnlySpacesAndSymbolsRejected(symbols, "");
    forall c | c in "   " ensures c == ' ' {
      var i :| 0 <= i < 3 && "   "[i] == c;
    }
    OnlySpacesAndSymbolsRejected(symbols, "   ");
  }

  /** IsLetters rejects the empty line and accepts "abc". */
  lemma LettersExamples()
    ensures !LettersRule("")
    ensures LettersRule("abc")
  {
    LettersIff("");
    LettersIff("abc");
    assert "abc"[0] in "abc";
    forall c | c in "abc" ensures IsLetter(c) {
      var i :| 0 <= i < 3 && "abc"[i] == c;
    }
  }

  lemma AlphanumericAccepts()
    ensures AlphanumericRule("abc 123")
  {
    var t := "abc 123";
    AlphanumericIff(t);
    assert t[0] in t && t[0] == 'a';
    forall c | c in t ensures c == ' ' || IsLetter(c) || IsDigit(c) {
      var i :| 0 <= i < |t| && t[i] == c;
    }
  }

  lemma AlphanumericRejects()
    ensures !AlphanumericRule("abc-123")
  {
    var t := "abc-123";
    AlphanumericIff(t);
    assert t[3] in t && t[3] == '-';
  }

  // ---------------------------------------------------------------------
  // The option rule.

  /** Exact, case-sensitive membership; with no options nothing passes. */
  lemma OptionExamples()
    ensures OptionRule(["a", "b"], "a")
    ensures !OptionRule(["a", "b"], "A")
    ensures !OptionRule(["a", "b"], " a")
    ensures forall input :: !OptionRule([], input)
  {
  }

  /** The options can be read back from the option rule's message: after
      the fixed prefix, splitting on the separator gives the options, as
      long as none contains the separator. */
  lemma OptionMessageListsOptions<A>(v: Validator<A>)
    requires v.IsOption? && |v.options| >= 1
    requires forall i :: 0 <= i < |v.options| ==> !ContainsSeparator(v.options[i])
    ensures OptionPrefix <= v.InvalidMsg()
    ensures SplitOnSeparator(v.InvalidMsg()[|OptionPrefix|..]) == v.options
  {
    assert v.InvalidMsg()[|OptionPrefix|..] == ListAsStr(v.options);
    SplitListAsStr(v.options);
  }

  // ---------------------------------------------------------------------
  // Messages.

  /** Every built-in validator has a non-empty message; only the wrapper
      can have an empty one. */
  lemma BuiltinMessageNonEmpty<A>(v: Validator<A>)
    requires !v.NewValidator?
    ensures |v.InvalidMsg()| > 0
  {
  }
}
