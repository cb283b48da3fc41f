# ask_questions: the spec validator and the answer loop

`ask_questions.py` reads a question spec (a JSON or YAML document), checks it,
puts each question to the user through interactive prompts and prints the
answers as JSON. This project models its two parts that carry rules:

- **`parse_spec`**, the validator and key resolver. It takes the decoded
  document (`Json.J`: null, booleans, numbers, strings, arrays, and objects as
  maps from string keys). It returns the list of validated questions or the
  first error, as `Result<seq<Question>, SpecError>`. It checks in a fixed order:
  the top level, the question count (at most 100), then for each question its
  text, its options one by one, `allow_freeform`, `freeform_label`,
  `multi_select` and last its `key`. The keys are resolved in one forward pass
  over a shared set of reserved keys. A question claims its own key, or
  reserves `question_<i>` at its position `i`.
- **`ask_questions`**, the answer loop. The prompt library is replaced by a
  script. Each entry of the script is the reply the next prompt returns: `Cancel`,
  `Text(s)`, `Picked(entry)` or `PickedMany(entries)`. A menu entry is `Real(value)` or the
  `FreeformMarker` that stands for the freeform sentinel. The result is the
  answers dictionary, as a sequence of entries in insertion order, and the
  cancelled flag.

Python's `str.strip()` is modelled with the exact character set of
`str.isspace()` (`Text.IsWhitespace`). `len` is the length of a sequence of
characters. `KEY_PATTERN.match` is modelled with Python's `$`, which also
matches before one final newline (`Text.KeyPatternMatches`).

Both parts follow the source's control flow. `SpecParser.ParseQuestions`,
`SpecParser.ParseOptions`, `Asker.AskQuestions` and `Asker.CollectSelections`
are `while` loops over an accumulator (and a `seenKeys` set or a script
position). `SpecParser.ParseSpec`, `ParseQuestion` and `ResolveKey` are methods
with early returns and no loop. Each method is proved equal to a function:
`ParseSpec` to `Parsed`, `ParseQuestions` to the recursive `QuestionsFrom`,
`ParseQuestion` to `QuestionAt`, `ParseOptions` to the recursive `OptionsFrom`,
`ResolveKey` to `Key`, `AskQuestions` to `Ask` (over the recursive `AskFrom`)
and `CollectSelections` to `Collect` (over the recursive `CollectFrom`). The
properties the program promises are proved about those functions in
`SpecProps` and `AskProps`.

Files: `wrappers.dfy` (Option, Result), `text.dfy` (whitespace, strip, key
pattern, decimal notation), `json.dfy` (the document), `questions.dfy` (the
records, limits and default keys), `spec_parser.dfy` and `spec_props.dfy`
(`parse_spec`), `ask.dfy` and `ask_props.dfy` (`ask_questions`).

Where the code and its own schema and messages disagree, the model follows the
code:

- **Own keys.** The JSON schema gives `key` the pattern
  `^[a-zA-Z_][a-zA-Z0-9_]*$` and calls it "a valid identifier"
  (`ask_questions.py:292-295`), and the `InvalidKey` message says the same
  (`ask_questions.py:771-773`). The code applies the pattern with `re.match`,
  whose `$` also matches before one final `"\n"`, so it accepts such an
  identifier followed by a newline. See `Text.KeyPatternAcceptsTrailingNewline`.
- **Empty `questions` list.** The JSON schema that `get_spec_json_schema`
  returns (`ask_questions.py:334`) gives `questions` a `minItems` of 1.
  `parse_spec` itself accepts an empty list and returns no questions.

## Model

| member | source | states |
|---|---|---|
| SpecParser.ParseSpec | ask_questions.py:634-804 | the method returns exactly `Parsed(doc)`: the top-level errors in order, `TooManyQuestions` above 100 entries, then the question loop |
| SpecParser.ParseQuestions | ask_questions.py:659-804 | the question loop, which appends and reserves one key per question, equals the recursive `QuestionsFrom` over all entries with nothing reserved at the start |
| SpecParser.ParseQuestion | ask_questions.py:662-800 | the checks on one question give `QuestionAt(i, qd, seen)` and, on success, the reserved set grows by exactly that question's resolved key |
| SpecParser.ParseOptions | ask_questions.py:690-722 | the option loop, which appends each accepted option and stops at the first refused one, equals `OptionsFrom` from option 0 |
| SpecParser.ResolveKey | ask_questions.py:765-789 | the key checks give `Key(i, f, seen)`; on success the set grows by the own key, or by `question_<i>` when there is none |
| SpecParser.TextField | ask_questions.py:667-683 | an accepted question text is the `question` string, stripped, of length 1 to 500, with no whitespace at either end; conversely a string whose stripped form has 1 to 500 characters is accepted as that stripped form |
| SpecParser.OptionAt | ask_questions.py:691-722 | an option is accepted exactly when it is an object with a string `value` of 1 to 200 characters once stripped and a `description` that is a string or absent; the accepted option has the stripped `value`, and its `description` verbatim, or `""` when absent |
| SpecParser.OptionsFromSound | ask_questions.py:690-722 | accepted options come one per entry, in entry order, each mirroring its entry and valid |
| SpecParser.AllowFreeform | ask_questions.py:726-740 | an accepted value is the boolean given, or `n == 0` when absent, and false never goes with zero options; conversely an absent field is accepted as `n == 0`, and a boolean that is true or comes with options is accepted as given |
| SpecParser.FreeformLabel | ask_questions.py:743-748 | an accepted label is the given string stripped and non-empty, or the default label when absent; an absent label, or a string with something besides whitespace, is accepted |
| SpecParser.DefaultLabelIsStripped | ask_questions.py:144 | the default label `"Type something."` is non-empty and is left as it is by `strip()` |
| SpecParser.MultiSelect | ask_questions.py:751-763 | an accepted value is the boolean given, false when absent, and true only with 2 to 15 options; a boolean (or an absent field) that is false, or true with 2 to 15 options, is accepted as given |
| SpecParser.Key | ask_questions.py:765-789 | an accepted key is absent exactly when `key` is absent or null; an own key is the string given and matches the key pattern; the resolved key was not reserved before; conversely an absent or null key whose `question_<i>` is free, and a string key that matches the pattern and is free, are accepted |
| SpecParser.QuestionAtSound | ask_questions.py:662-800 | a question that validates mirrors its document field by field, satisfies every question invariant, and resolves to a key not reserved before it |
| SpecParser.OptionsFromAccepted | ask_questions.py:690-722 | when every option entry passes the option check, the whole option list validates |
| SpecParser.OptionsFromFailsAtFirst | ask_questions.py:690-722 | a failing option list fails at its first refused entry: every earlier entry passes the option check, and that entry's error is the list's |
| SpecParser.FirstBadOptionFails | ask_questions.py:690-722 | conversely, when the entries before `k` pass and entry `k` is refused, the list fails with entry `k`'s error |
| SpecProps.QuestionAccepted | ask_questions.py:662-789 | a question validates exactly when its document meets every field rule and the key it resolves to (its own key, or `question_<i>`) is not reserved yet; it then resolves to that key |
| SpecProps.QuestionsFromAccepted | ask_questions.py:662-800 | the question loop from entry `i` on succeeds when the per-question check accepts each entry whose key is free and resolves it to that key, no entry's key is reserved yet, and no two entries' keys are equal |
| SpecProps.AcceptableListValidates | ask_questions.py:662-800 | entries that each meet the field rules and resolve to pairwise distinct keys validate as a list |
| SpecProps.ValidatedListAcceptable | ask_questions.py:662-800 | conversely, every entry of a list that validates meets the field rules, and the entries resolve to pairwise distinct keys |
| SpecProps.ParsedAccepts | ask_questions.py:634-804 | `parse_spec` accepts a document exactly when it is an object with a `questions` list of at most 100 entries, each meeting the field rules, with pairwise distinct resolved keys |
| SpecProps.ParsedSound | ask_questions.py:655-804 | on success there is one question per entry, entry `k` giving question `k`, with at most 100 of them; each question mirrors its entry and is valid; resolved keys are pairwise distinct |
| SpecProps.TooManyQuestionsRefused | ask_questions.py:655-657 | more than 100 entries give `TooManyQuestions`, whatever the entries hold |
| SpecProps.ParsedFailsAtFirstBadQuestion | ask_questions.py:662-802 | a failure of a checked list happens at some question `k`: every question before `k` validates, and `k` fails with the returned error given the keys reserved before it |
| SpecProps.FirstBadQuestionFailsParse | ask_questions.py:662-802 | conversely, if the questions before `k` validate and question `k` fails, the document fails with `k`'s error |
| SpecProps.QuestionsFromSplit | ask_questions.py:659-804 | checking the entries is checking a prefix, then the rest with the prefix's keys reserved |
| SpecProps.QuestionsFromAt | ask_questions.py:662-800 | the question returned for entry `k` is what the per-question check makes of it given the keys of `seen` and of the questions before it |
| SpecProps.ValidatedKeyFresh | ask_questions.py:775-789 | the resolved key of each returned question is not the resolved key of any question before it |
| SpecProps.FreshKeysAreDistinct | ask_questions.py:775-789 | a list in which every resolved key is fresh has pairwise distinct resolved keys |
| SpecProps.ValidatedKeysDistinct | ask_questions.py:765-789 | no two returned questions share a resolved key |
| SpecProps.DuplicateOwnKeysRefused | ask_questions.py:775-779 | two entries with the same own key never validate together |
| SpecProps.OwnKeyEqualToDefaultKeyRefused | ask_questions.py:781-788 | an own key `question_<b>` never validates together with a keyless entry at position `b`, in either order |
| SpecProps.OwnKeyAgainstReserved | ask_questions.py:766-780 | a question that validates alone, given a key the pattern accepts, fails with `DuplicateKey` exactly when that key was reserved before; otherwise it gains that key |
| SpecProps.DefaultKeyAgainstReserved | ask_questions.py:781-789 | a keyless question that validates alone fails with `GeneratedKeyConflict(question_<i>)` exactly when `question_<i>` was reserved before; otherwise it is unchanged |
| SpecProps.KeylessQuestionsReserveDefaults | ask_questions.py:781-789 | when a document in which no entry has a key validates, the reserved keys are exactly `question_0` to `question_<n-1>` |
| SpecProps.ValidatedKeylessDefault | ask_questions.py:781-789 | a keyless entry's question resolves to the default key of its position |
| SpecProps.DefaultKeySet | ask_questions.py:781-789 | questions that all resolve to their default keys reserve exactly those keys |
| SpecProps.QuestionChecksInOrder | ask_questions.py:667-799 | the checks of a question object run in source order (text, options, `allow_freeform`, `freeform_label`, `multi_select`, key): the first that fails gives the question's error, and when all pass the question holds each check's result |
| SpecProps.QuestionTextIgnores | ask_questions.py:667-683 | the text check reads only `question` |
| SpecProps.OptionsOfIgnores | ask_questions.py:686-722 | the options check reads only `options` |
| SpecProps.AllowFreeformIgnores | ask_questions.py:726-740 | the `allow_freeform` check reads only `allow_freeform` |
| SpecProps.FreeformLabelIgnores | ask_questions.py:743-748 | the label check reads only `freeform_label` |
| SpecProps.MultiSelectIgnores | ask_questions.py:751-763 | the `multi_select` check reads only `multi_select` |
| SpecProps.KeyIgnores | ask_questions.py:765-789 | the key check reads only `key` |
| SpecProps.BuiltOptions | ask_questions.py:790-799 | the options of a question that validates are what the options check returned |
| SpecProps.MultiSelectBounds | ask_questions.py:755-763 | with `multi_select` set to true, fewer than 2 options fail "at least", more than 15 fail "at most", and otherwise the same question comes back as multi-select |
| SpecProps.NoOptionsNeedFreeform | ask_questions.py:736-740 | with no options and `allow_freeform` set to false, the question fails with the "no options" error |
| SpecProps.FreeformLabelStored | ask_questions.py:743-748 | a new label is refused when it is all whitespace, and is otherwise stored stripped, leaving the rest as it was |
| Text.StripEmpty | ask_questions.py:674-675 | `strip()` is empty exactly for an all-whitespace string |
| Text.StripIsMiddle | ask_questions.py:674 | `strip()` is a contiguous piece of its input, the one `lstrip()` starts |
| Text.StripLeadingRemovesWhitespace | ask_questions.py:674 | what is cut from the front is whitespace |
| Text.StripRemovesTrailing | ask_questions.py:674 | what follows the stripped piece is whitespace |
| Text.StripIdempotent | ask_questions.py:748 | stripping twice is stripping once |
| Text.KeyPatternWithoutNewline | ask_questions.py:159 | with no newline in it, a key the pattern accepts is an identifier |
| Text.KeyPatternAcceptsTrailingNewline | ask_questions.py:770 | the pattern accepts `"a\n"`, which is not an identifier |
| Text.NatToStringInjective | ask_questions.py:783 | distinct positions have distinct decimal strings |
| Questions.DefaultKeyShape | ask_questions.py:420 | `question_<i>` is an identifier starting with `question_` |
| Questions.DefaultKeyInjective | ask_questions.py:783 | distinct positions have distinct default keys |
| Questions.KeySetWitness | ask_questions.py:780-789 | every reserved key is the resolved key of some question |
| Questions.KeySetHas | ask_questions.py:780-789 | every question's resolved key is reserved |
| Asker.AskQuestions | ask_questions.py:386-552 | the loop returns the answers and the cancelled flag of `Ask(qs, script)` |
| Asker.CollectSelections | ask_questions.py:487-504 | the checkbox loop returns `Collect(selected, script, pos)` |
| AskProps.InsertKeys | ask_questions.py:434 | `answers[key] = v` keeps the keys and their order, and a new key goes to the end |
| AskProps.InsertLookup | ask_questions.py:434 | after `answers[key] = v`, that key reads `v` and every other key reads as before |
| AskProps.InsertNew | ask_questions.py:543 | assigning a key not yet present appends one entry |
| AskProps.InsertDistinct | ask_questions.py:504 | the dictionary never holds a key twice |
| AskProps.CollectKeeps | ask_questions.py:487-504 | a checkbox answer completes exactly when every marker's text prompt gets a text; it then holds the selections in order, real values as they are, each marker replaced by its text, and empty texts left out |
| AskProps.KeptNonEmpty | ask_questions.py:499-502 | without empty option values, a checkbox answer holds no empty string |
| AskProps.AskFromPrefix | ask_questions.py:419-551 | the run over a prefix of the questions is the start of the run over them all |
| AskProps.AskStep | ask_questions.py:419-551 | the run over `k + 1` questions is the run over `k`, then question `k`; once cancelled, a run stays as it is |
| AskProps.CancelledAt | ask_questions.py:432-437 | a cancel at question `k` returns the answers of questions `0..k-1`, flagged cancelled |
| AskProps.CancelPoint | ask_questions.py:483-550 | a cancelled run was cancelled at a question `k` it reached, and returns what it had before `k` |
| AskProps.CancelledIff | ask_questions.py:530-552 | the flag is set exactly when some prompt the run reaches is cancelled |
| AskProps.AnswerKeysDistinct | ask_questions.py:415-434 | the answers never hold a key twice |
| AskProps.AnswersInOrder | ask_questions.py:419-546 | with distinct ask-time keys, entry `m` is what question `idx[m]` stored under its key; the indices increase; every question that stored an answer has its entry |
| AskProps.ValidAskKey | ask_questions.py:420 | for a validated question the ask-time key is the key the validator reserved |
| AskProps.ParsedAskKeysDistinct | ask_questions.py:420 | the questions of an accepted document have distinct ask-time keys |
| AskProps.ParsedAnswersInOrder | ask_questions.py:419-546 | for an accepted document the answers come in question order, each under the key the validator reserved, and every question that stored an answer has its entry |
| AskProps.AnswerShape | ask_questions.py:424-546 | a stored answer is a list exactly for a multi-select question not asked as freeform only; for a validated question, exactly when it is multi-select |
| AskProps.OfferedPickRecords | ask_questions.py:534-546 | a select reply taken from the offered menu always stores an answer |

## Left out

- `parse_spec_content`, `load_spec_from_file`, `load_spec_from_stdin`: JSON and YAML decoding and file or stdin input. The model starts from the decoded document.
- `main`: argument parsing, terminal selection, printing the answers and the exit codes.
- `get_custom_style` and the menu titles and descriptions (`ask_questions.py:440-452`, `455-463`): display only. A menu is modelled as its entries' values (`Asker.Choices`).
- `get_spec_json_schema`, `get_example_spec`, `get_example_yaml`: static data.
- The check for a missing prompt library (`ask_questions.py:410-413`) and the terminal input and output arguments.
- `KeyboardInterrupt` and `EOFError`: folded into the `Cancel` reply, as a prompt returning `None` is. A script that runs out also reads as `Cancel`.
- A reply of the wrong kind for its prompt, such as a `Text` for a select, is read as a cancellation. The prompt library never returns one.
- The checkbox and select replies are not constrained to the offered menu. `AskProps.OfferedPickRecords` states what follows when they are.
- The `except KeyError` at `ask_questions.py:801-802`: no key lookup in the loop can fail. The model has no such error.
- The text of the error messages: each `raise SpecError` is one `SpecError` variant that carries the indices and the key the message names.
- Non-string keys in an object, which YAML can produce. Objects are maps from strings.
- Numbers: `JNum` carries a real. The validator only tells numbers apart from the other kinds.
- Strings from the document are taken to be sequences of Unicode scalar values. A lone surrogate, which `json.loads` can produce from an escape, has no `char` here, so for such strings `len` is not modelled.
- SpecProps.DuplicateOwnKeysRefused: states that the document is refused, not which error it returns. An earlier question can fail first. The error a duplicate key itself raises is stated per question by `SpecProps.OwnKeyAgainstReserved`.
- SpecProps.OwnKeyEqualToDefaultKeyRefused: the same, with the per-question errors stated by `OwnKeyAgainstReserved` and `DefaultKeyAgainstReserved`.
- Text.KeyPatternWithoutNewline: an own key matches `[A-Za-z_][A-Za-z0-9_]*` only when it has no newline. The pattern, as the code applies it, also accepts such a key followed by one `"\n"`.

## Notes

Behaviour of the code that the model keeps:

- A select that returns the freeform marker of a question without freeform records nothing.
- A multi-select question asks for a text on every selected marker.
- A single-select or freeform-only answer may be the empty string.

On form: `SpecParser.ParseOptions` and the functions `OptionsFrom` and
`QuestionsFrom` take the per-entry check as a parameter, so that the loop
lemmas hold for any check. The only checks ever passed are `OptionAt` and
`QuestionAt`, the source's per-option and per-question code.
