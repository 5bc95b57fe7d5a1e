# validin in Dafny

A model of validin, a small library that reads a line from the console,
checks it against a validator, and asks again until a line passes.

- `Utils` (utils.dfy): `list_as_str` joins items with `", "`.
  `remove_chars` deletes each of its arguments in turn, as a whole
  substring, with `str.replace`. Python's `str.replace(sub, "")` is
  modelled as `Replace`: one left-to-right scan that deletes each
  non-overlapping occurrence. The loop of `remove_chars` is the method
  `RemoveChars`. It is proved against the function `Stripped`, which the
  validators use.
- `Validators` (validators.dfy): each built-in validator class is a
  predicate on the input, such as `NaturalNumRule` or `LettersRule`. The
  datatype `Validator` holds either a built-in class with its
  configuration or the `NewValidator` wrapper around a caller's predicate.
  Its `IsValid` and `InvalidMsg` are `is_valid` and `get_invalid_msg`.
  `InvalidMsg` takes no input, so no message can depend on the rejected
  line.
- `Prompt` (prompt.dfy): the `get_input` loop. The method `GetInput` reads
  from a finite sequence of lines and returns the line it accepts. It also
  returns a transcript: the prompt each read shows, the end-of-bold
  sequence written after each read, and one failure line for each
  rejected line. It is proved against the functions `FirstAccepted` and
  `Transcript`.

The repository holds four copies of this code. The model writes the logic
once and tells the copies apart with the datatype `Prompt.Copy`:

| copy | utils | validators | loop |
|---|---|---|---|
| validin/ | validin/utils.py:1-12 | validin/validators.py:5-128 | validin/__init__.py:17-40, `Copy.Validin` |
| input_validator.py | input_validator.py:4-13, the same as validin | input_validator.py:29-155, the same as validin | input_validator.py:161-181, `Copy.SingleFile` |
| user_input.py | user_input.py:20-29, the same as validin | user_input.py:46-141, the same but with no `NewValidator` | user_input.py:147-167, `Copy.UserInput`, `GetInputIgnoringArgs` |
| input_validator/ | input_validator/utils/utils.py:1-10, the same as validin | (none) | input_validator/input_validator.py:17-37, `Copy.LegacyPackage` |

The loops differ in two ways. The validin loop accepts any line when the
condition is left out, and it prints `"Invalid Input"` with no colon when
the message is empty. The other three loops require a condition and
always print `"Invalid Input: "` followed by the message.

The model follows what the code does:
- `IsNaturalNum` does not trim its input (validin/validators.py:36), so an
  input with a space is rejected. tests/test_validators.py:18-19 expect
  `"1 "` and `"  49 "` to be accepted; the code rejects them, and so does
  the model.
- `IsNaturalNumLessThan` stores its limit as given
  (validin/validators.py:49-50) and only compares with it in `is_valid`.
- Each argument of `remove_chars` is deleted as a whole substring
  (validin/utils.py:10-11), and the symbol validators pass their `*symbols`
  to it one by one (validin/validators.py:79, 107). The docstrings at
  validin/validators.py:72 and :100 speak of "special characters", but a
  symbol given as one string such as `"!."` is removed only where `"!."`
  occurs as a whole. tests/test_validators.py:11 expects `"aeiou"` to
  delete each vowel; the code deletes only the whole string `"aeiou"`, so
  the input comes back unchanged.
- A symbol rule rejects an input with nothing left after the symbols and
  spaces are removed, because `isalpha` and `isalnum` are false on the
  empty string (validin/validators.py:80, 108).

## Model

| member | source | states |
|---|---|---|
| Utils.ListAsStr | validin/utils.py:1-4 | for n ≥ 1 items the result is as long as all the items together plus 2·(n−1), and it starts with the first item |
| Utils.ListAsStrEmptyAndSingle | validin/utils.py:4 | no items give `""`; a single item comes back unchanged |
| Utils.ListAsStrSnoc | validin/utils.py:4 | adding an item adds exactly `", "` and then the item |
| Utils.SplitListAsStr | validin/utils.py:4 | when no item contains `", "`, splitting the result on `", "` gives back the items in order and unchanged, so there are exactly n−1 separators and nothing else was added |
| Utils.ListAsStrExamples | tests/test_validators.py:6-8 | `["foo"]`, `[".12","xyz"]` and a list with an all-space item join as the tests expect |
| Utils.Replace | validin/utils.py:11 | `str.replace(sub, "")` never makes the string longer and adds no character |
| Utils.ReplaceAbsent | validin/utils.py:11 | removing a substring that does not occur returns the input unchanged |
| Utils.ReplaceOneChar | validin/utils.py:11 | removing a one-character string drops every copy of that character and keeps all other characters in order |
| Utils.Stripped | validin/utils.py:7-12 | applying the arguments left to right never lengthens the input and adds no character |
| Utils.RemoveChars | validin/utils.py:7-12 | the loop that reassigns the string once per argument computes `Stripped` |
| Utils.StrippedAbsent | validin/utils.py:10-12 | with no arguments, or with arguments none of which occurs, the input comes back unchanged |
| Utils.StrippedSingleChars | validin/utils.py:10-12 | when every argument is one character, the result is the input with exactly those characters filtered out and the others kept in order |
| Utils.StrippedSingleCharsMembership | validin/utils.py:10-12 | when every argument is one character, none of those characters remains and every other character of the input does |
| Utils.RemoveAbsentExamples | tests/test_validators.py:11-12 | `"aeiou"` and `"0123456789!Â£$%^&*()"` do not occur in `"This is a test string"`, so it comes back unchanged |
| Utils.RemoveSinglePassExample | validin/utils.py:11-12 | removal is a single pass: removing `"ab"` from `"aabb"` leaves `"ab"` |
| Validators.AllInClass | validin/validators.py:62-89 | definition, with no separate contract: `isalpha()` (line 62) / `isalnum()` (line 89) over ASCII, true exactly when the string is non-empty and every character is a letter (or a letter or digit) |
| Validators.AllDigits | validin/validators.py:36 | definition, with no separate contract: `isdigit()` over ASCII, the string is non-empty and every character is `'0'`..`'9'` |
| Validators.DecimalValue | validin/validators.py:36 | definition, with no separate contract: `int()` of a digit string, its base-10 value (`0` for the empty string, which the rules never pass to it) |
| Validators.IntToString | validin/validators.py:56 | definition, with no separate contract: the decimal text of the limit in the f-string, with a `-` for a negative limit |
| Validators.NaturalNumRule | validin/validators.py:36 | definition, with no separate contract: all ASCII digits, non-empty, and value above zero |
| Validators.NaturalNumLessThanRule | validin/validators.py:53 | definition, with no separate contract: the natural-number rule and a value below the limit |
| Validators.LettersRule | validin/validators.py:62 | definition, with no separate contract: spaces deleted, then `isalpha()` |
| Validators.LettersAndSymbolsRule | validin/validators.py:79-80 | definition, with no separate contract: `remove_chars` with the symbols, spaces deleted, then `isalpha()` |
| Validators.AlphanumericRule | validin/validators.py:89 | definition, with no separate contract: spaces deleted, then `isalnum()` |
| Validators.AlphanumericAndSymbolsRule | validin/validators.py:107-108 | definition, with no separate contract: `remove_chars` with the symbols, spaces deleted, then `isalnum()` |
| Validators.OptionRule | validin/validators.py:125 | definition, with no separate contract: the input is equal to one of the options |
| Validators.Validator.IsValid | validin/validators.py:22-125 | definition, with no separate contract: `is_valid`, the wrapper's predicate on the input and its arguments, or the rule of the built-in class with its configuration |
| Validators.Validator.InvalidMsg | validin/validators.py:29-128 | definition, with no separate contract: `get_invalid_msg`, the wrapper's stored message or the fixed messages of validin/validators.py:39, 56, 65, 83, 92, 111 and 128, with the limit, symbols or options filled in |
| Validators.DecimalRoundTrip | validin/validators.py:53-56 | the decimal text of a natural number is all digits and `int()` of it is the number |
| Validators.DecimalPositive | validin/validators.py:36 | the value of a digit string is above zero exactly when some digit is not `'0'` |
| Validators.CustomValidatorForwards | validin/validators.py:22-30 | the wrapper answers with the predicate's own result on the input and its fixed arguments, and its message is the one it was built with |
| Validators.CustomValidatorDefaultMessage | validin/validators.py:17-20 | the message of a wrapper built without one is `""` |
| Validators.NaturalNumIff | validin/validators.py:36 | IsNaturalNum accepts exactly the non-empty digit strings that have a digit other than `'0'` |
| Validators.NaturalNumRejectsSpaces | validin/validators.py:36 | nothing is trimmed, so an input that contains a space is rejected |
| Validators.NaturalNumExamples | tests/test_validators.py:16-27 | `"2"` and the 22-digit number are accepted; `"0"`, `""`, `"-2"`, `"14.13"`, `"foo"`, `"3f"`, `"1 0"`, `"1 "` and `"  49 "` are rejected |
| Validators.LessThanWithinNaturalNum | validin/validators.py:52-53 | IsNaturalNumLessThan accepts only what IsNaturalNum accepts, accepts more as the limit grows, and accepts nothing when the limit is at most 1 |
| Validators.LessThanAcceptsExactly | validin/validators.py:52-56 | the decimal text of n is accepted exactly when 0 < n < limit, and the limit shown in the message is rejected |
| Validators.LettersIff | validin/validators.py:61-62 | IsLetters accepts exactly the inputs made of letters and spaces that have at least one letter, so empty and all-space inputs are rejected |
| Validators.AlphanumericIff | validin/validators.py:88-89 | IsAlphanumeric accepts exactly the inputs made of letters, digits and spaces that have at least one letter or digit |
| Validators.LettersAndSymbolsIff | validin/validators.py:78-80 | with one-character symbols, IsLettersAndSymbols accepts exactly the inputs made of letters, spaces and symbols that have a character that is neither a space nor a symbol |
| Validators.AlphanumericAndSymbolsIff | validin/validators.py:106-108 | the same for IsAlphanumericAndSymbols, with letters or digits |
| Validators.OnlySpacesAndSymbolsRejected | validin/validators.py:78-80 | an input made only of spaces and one-character symbols, the empty input included, is rejected by both symbol rules and by the plain rules once the symbols are removed |
| Validators.AbsentSymbolsChangeNothing | validin/validators.py:106-108 | with no symbols, or with symbols that do not occur in the input, the symbol rules give the same answer as IsLetters and IsAlphanumeric |
| Validators.RuleInclusions | validin/validators.py:88-89 | whatever IsLetters or IsNaturalNum accepts, IsAlphanumeric accepts too |
| Validators.LettersAndSymbolsAccepts | validin/validators.py:78-80 | with symbols `!` and `.`, `"Hi!"` is accepted |
| Validators.LettersAndSymbolsOneStringRejects | validin/validators.py:78-80 | with the one symbol argument `"!."`, `"Hi!"` is rejected: `"!."` does not occur in it as a whole, so its `!` stays |
| Validators.LettersAndSymbolsRejects | validin/validators.py:78-80 | with symbols `!` and `.`, `"Hi1"` is rejected |
| Validators.LettersAndSymbolsRejectsBlank | validin/validators.py:78-80 | with symbols `!` and `.`, `""` and `"   "` are rejected |
| Validators.LettersExamples | validin/validators.py:61-62 | IsLetters rejects `""` and accepts `"abc"` |
| Validators.AlphanumericAccepts | validin/validators.py:88-89 | `"abc 123"` is accepted |
| Validators.AlphanumericRejects | validin/validators.py:88-89 | `"abc-123"` is rejected |
| Validators.OptionExamples | validin/validators.py:124-125 | the option test is exact and case-sensitive: `"a"` passes, `"A"` and `" a"` do not, and with no options nothing passes |
| Validators.OptionMessageListsOptions | validin/validators.py:127-128 | the IsOption message is the fixed prefix followed by the options, which splitting on `", "` gives back when no option contains it |
| Validators.BuiltinMessageNonEmpty | validin/validators.py:33-128 | every built-in validator has a non-empty message; only the wrapper's can be empty |
| Prompt.PromptText | validin/__init__.py:29-32 | each read shows the prompt followed by the bold sequence when bold is set, and the prompt alone otherwise |
| Prompt.FailureText | validin/__init__.py:37-40 | the failure line starts with `"Invalid Input"`; it is exactly that only in the validin copy with an empty message, and otherwise it is `"Invalid Input: "` followed by the message |
| Prompt.Accepts | validin/__init__.py:34 | definition, with no separate contract: a line passes when there is no condition or the condition's `is_valid` holds |
| Prompt.FirstAccepted | validin/__init__.py:31-35 | the line returned is the first that passes, and every line before it is rejected; when no line passes, all of them are rejected |
| Prompt.Transcript | validin/__init__.py:31-40 | definition, with no separate contract: for each line read, the prompt and the end-of-bold sequence; after a rejected line, the failure line and then the rest; when the lines run out, the prompt the loop waits at |
| Prompt.FirstAcceptedUnique | validin/__init__.py:31-35 | a line that passes with none passing before it is the one `FirstAccepted` names |
| Prompt.ValidinFailureText | validin/__init__.py:37-40 | the validin copy, which prefixes a non-empty message with `": "` and then prints it after `"Invalid Input"`, prints exactly `FailureText` |
| Prompt.AcceptStep | validin/__init__.py:31-35 | a turn on an accepted line writes the prompt and the end-of-bold sequence, and the transcript ends there |
| Prompt.RejectStep | validin/__init__.py:31-40 | a turn on a rejected line writes the prompt, the end-of-bold sequence and the failure line, and then the loop goes on with the next line |
| Prompt.GetInput | validin/__init__.py:17-40 | returns the first accepted line exactly as read, and only if it passes; it writes exactly the transcript `Transcript` describes |
| Prompt.GetInputIgnoringArgs | user_input.py:147-167 | the extra condition arguments change neither the result nor the transcript; the colon is always printed |
| Prompt.NoConditionReturnsFirstLine | validin/__init__.py:34-35 | with no condition, the first line is returned after one prompt and one end-of-bold sequence |
| Prompt.TranscriptClosedForm | validin/__init__.py:31-40 | the transcript is one identical rejected round (prompt, end of bold, failure line) for each line read before the returned one, then a prompt and end of bold; the end of bold follows every read |
| Prompt.FailureCount | validin/__init__.py:31-40 | the number of failure lines equals the number of lines read before the returned one |
| Prompt.CopiesAgreeOnBuiltins | input_validator.py:176-181 | for a built-in validator, all four copies of the loop write the same transcript |
| Prompt.CopiesDifferOnEmptyMessage | input_validator/input_validator.py:32-37 | for a wrapper with no message, the validin copy prints `"Invalid Input"` and the legacy copies print `"Invalid Input: "` |
| Prompt.RejectThenAccept | validin/__init__.py:31-40 | for any validator, a rejected line followed by an accepted one gives one failure line with the validator's message, and the second line is returned |
| Prompt.LettersEndToEnd | validin/__init__.py:31-40 | with IsLetters, the lines `""` and `"abc"` give one failure line `"Invalid Input: Must only contain letters"` and return `"abc"` |

## Left out

- Terminal I/O is not modelled. `input()` becomes a finite sequence of lines, and `print` becomes the events of the transcript. A loop that runs out of lines returns `None`, which stands for the real loop waiting at its prompt for ever.
- The end-of-bold sequence is an event (`EndBold`) and not its bytes. The bold-start sequence is kept as a constant because it is part of the prompt text.
- Python's Unicode character classes are not modelled. `isalpha`, `isalnum` and `isdigit` are their ASCII versions.
- Validators.NaturalNumRule: the ValueError that `is_valid` can raise is not modelled, so for two kinds of input the model's answer is not the program's. For an input such as `"²"`, `isdigit` is true and `float("²")` raises ValueError (validin/validators.py:36). For an all-digit input longer than Python's limit on integer string conversion (4300 digits by default), `int()` raises ValueError. In both cases the error escapes `is_valid` and `get_input` (validin/__init__.py:34). The model instead rejects `"²"`, so `GetInput` prints a failure line and reads on, and it accepts the over-long digit string.
- The `float(input).is_integer` term has no call parentheses, so it is always truthy. It is dropped, and floating point is not modelled.
- The predicate given to `NewValidator` is a function parameter of type `(string, seq<A>) -> bool`. It gets the input and the fixed extra arguments, and the model knows nothing more about it. Python calls it as `condition(input)` when there are no extra arguments and as `condition(input, *args)` otherwise (validin/validators.py:23-26). Both calls are `condition(input, args)` in the model, with `args` empty in the first case.
- `IsNaturalNumLessThan` stores its limit as given. A limit that is not a number only fails when `is_valid` compares it, and that failure is not modelled: the limit is an `int`.
- Utils.StrippedSingleChars: the filter law is proved only for one-character arguments. Longer arguments are described by `Replace` itself, by `ReplaceAbsent` and by `RemoveSinglePassExample`.
- Validators.LettersAndSymbolsIff: the character-level description is proved only for one-character symbols. Longer symbols are covered by the definition, which removes them as substrings, and by `AbsentSymbolsChangeNothing`.
- The example `remove_chars("This is a test string", " ")` (tests/test_validators.py:10) has no lemma of its own. It is an instance of `StrippedSingleChars`.
- The abstract base class `InputValidator` is not a separate entity. Its two methods are the two members of the `Validator` datatype.
- Packaging, the `from utils import` path in validin/validators.py:2, and the test runner are not modelled.
