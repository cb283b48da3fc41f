/** `parse_spec`: validates a decoded document and builds the question list,
    failing on the first problem in a fixed order. The pure functions below
    specify the validator step by step; the methods `ParseOptions` and
    `ParseQuestions` are the loops of the source, proved to compute them. */
module SpecParser {
  import opened Wrappers
  import opened Text
  import opened Json
  import opened Questions

  /** One variant per `raise SpecError(...)` in `parse_spec`; `i` is the
      question index and `j` the option index the message names. */
  datatype SpecError =
    | SpecNotObject
    | MissingQuestions
    | QuestionsNotList
    | TooManyQuestions
    | QuestionNotObject(i: nat)
    | MissingQuestionText(i: nat)
    | QuestionTextNotString(i: nat)
    | QuestionTextEmpty(i: nat)
    | QuestionTextTooLong(i: nat)
    | OptionsNotList(i: nat)
    | OptionNotObject(i: nat, j: nat)
    | OptionMissingValue(i: nat, j: nat)
    | OptionValueNotString(i: nat, j: nat)
    | OptionValueEmpty(i: nat, j: nat)
    | OptionValueTooLong(i: nat, j: nat)
    | OptionDescriptionNotString(i: nat, j: nat)
    | AllowFreeformNotBool(i: nat)
    | NoOptionsNoFreeform(i: nat)
    | FreeformLabelInvalid(i: nat)
    | MultiSelectNotBool(i: nat)
    | MultiSelectTooFewOptions(i: nat)
    | MultiSelectTooManyOptions(i: nat)
    | KeyNotString(i: nat)
    | InvalidKey(i: nat, key: string)
    | DuplicateKey(i: nat, key: string)
    | GeneratedKeyConflict(key: string)

  /** `prefix` in front of a successful result; a failure passes through. */
  function Prepend<T>(prefix: seq<T>, r: Result<seq<T>, SpecError>): Result<seq<T>, SpecError> {
    if r.Success? then Success(prefix + r.value) else r
  }

  lemma PrependNil<T>(r: Result<seq<T>, SpecError>)
    ensures Prepend([], r) == r
  {
    if r.Success? {
      assert [] + r.value == r.value;
    }
  }

  lemma PrependAssoc<T>(a: seq<T>, b: seq<T>, r: Result<seq<T>, SpecError>)
    ensures Prepend(a, Prepend(b, r)) == Prepend(a + b, r)
  {
    if r.Success? {
      assert a + (b + r.value) == (a + b) + r.value;
    }
  }

  /** The option `o` is what the validator makes of the option document `od`:
      the value stripped, the description verbatim or `""` when absent. */
  predicate OptionFrom(od: J, o: QuestionOption) {
    && od.JObj?
    && "value" in od.fields && od.fields["value"].JStr?
    && o.value == Strip(od.fields["value"].s)
    && ("description" in od.fields ==> od.fields["description"] == JStr(o.description))
    && ("description" !in od.fields ==> o.description == "")
  }

  /** The question `q` is what the validator makes of the question document `qd`,
      field by field, defaults included. */
  predicate QuestionFrom(qd: J, q: Question) {
    && qd.JObj?
    && var f := qd.fields;
    && "question" in f && f["question"].JStr? && q.text == Strip(f["question"].s)
    && var od := GetOr(f, "options", JArr([]));
    && od.JArr? && |q.options| == |od.items|
    && (forall j :: 0 <= j < |od.items| ==> OptionFrom(od.items[j], q.options[j]))
    && ("allow_freeform" in f ==> f["allow_freeform"] == JBool(q.allowFreeform))
    && ("allow_freeform" !in f ==> q.allowFreeform == (|q.options| == 0))
    && ("freeform_label" in f ==> f["freeform_label"].JStr? && q.freeformLabel == Strip(f["freeform_label"].s))
    && ("freeform_label" !in f ==> q.freeformLabel == DefaultFreeformLabel)
    && ("multi_select" in f ==> f["multi_select"] == JBool(q.multiSelect))
    && ("multi_select" !in f ==> !q.multiSelect)
    && (q.key.None? <==> GetOr(f, "key", JNull) == JNull)
    && (q.key.Some? ==> f["key"] == JStr(q.key.value))
  }

  lemma DefaultLabelIsStripped()
    ensures Strip(DefaultFreeformLabel) == DefaultFreeformLabel
    ensures |DefaultFreeformLabel| >= 1 && IsStripped(DefaultFreeformLabel)
  {
    StripOfStripped(DefaultFreeformLabel);
  }

  /** The `question` field of question `i`: present, a string, and non-empty
      and at most 500 characters once stripped. */
  function QuestionText(i: nat, f: map<string, J>): Result<string, SpecError> {
    TextField(i, if "question" in f then Some(f["question"]) else None)
  }

  /** The check `QuestionText` applies to the `question` field, `None` when absent. */
  function TextField(i: nat, field: Option<J>): (r: Result<string, SpecError>)
    ensures r.Success? ==>
      && field.Some? && field.value.JStr? && r.value == Strip(field.value.s)
      && 1 <= |r.value| <= MaxQuestionLength && IsStripped(r.value)
    ensures field.Some? && field.value.JStr? && 1 <= |Strip(field.value.s)| <= MaxQuestionLength ==>
      r == Success(Strip(field.value.s))
  {
    if field.None? then Failure(MissingQuestionText(i))
    else if !field.value.JStr? then Failure(QuestionTextNotString(i))
    else
      var text := Strip(field.value.s);
      if text == [] then Failure(QuestionTextEmpty(i))
      else if |text| > MaxQuestionLength then Failure(QuestionTextTooLong(i))
      else Success(text)
  }

  /** What the option checks ask of an option document: an object whose
      `value` is a string of 1 to 200 characters once stripped, and whose
      `description`, when present, is a string. */
  predicate AcceptableOption(od: J) {
    && od.JObj?
    && "value" in od.fields && od.fields["value"].JStr?
    && 1 <= |Strip(od.fields["value"].s)| <= MaxOptionLength
    && GetOr(od.fields, "description", JStr("")).JStr?
  }

  /** Option `j` of question `i`. */
  function OptionAt(i: nat, j: nat, od: J): (r: Result<QuestionOption, SpecError>)
    ensures r.Success? ==> OptionFrom(od, r.value) && ValidOption(r.value)
    ensures r.Success? <==> AcceptableOption(od)
  {
    if !od.JObj? then Failure(OptionNotObject(i, j))
    else if "value" !in od.fields then Failure(OptionMissingValue(i, j))
    else if !od.fields["value"].JStr? then Failure(OptionValueNotString(i, j))
    else
      var value := Strip(od.fields["value"].s);
      if value == [] then Failure(OptionValueEmpty(i, j))
      else if |value| > MaxOptionLength then Failure(OptionValueTooLong(i, j))
      else
        var description := GetOr(od.fields, "description", JStr(""));
        if !description.JStr? then Failure(OptionDescriptionNotString(i, j))
        else Success(QuestionOption(value, description.s))
  }

  /** A check of option `j` of question `i`; `OptionAt` is the one `parse_spec` uses. */
  type OptionCheck = (nat, nat, J) -> Result<QuestionOption, SpecError>

  /** The options `data[j..]` of question `i`, in order, or the first failing one's error. */
  function OptionsFrom(check: OptionCheck, i: nat, data: seq<J>, j: nat): Result<seq<QuestionOption>, SpecError>
    requires j <= |data|
    decreases |data| - j
  {
    if j == |data| then Success([])
    else
      var o := check(i, j, data[j]);
      if o.Failure? then Failure(o.error)
      else Prepend([o.value], OptionsFrom(check, i, data, j + 1))
  }

  /** Every option the check accepts mirrors its entry and is valid. */
  ghost predicate SoundOptionCheck(check: OptionCheck) {
    forall i, j, od :: check(i, j, od).Success? ==>
      OptionFrom(od, check(i, j, od).value) && ValidOption(check(i, j, od).value)
  }

  lemma OptionAtIsSound()
    ensures SoundOptionCheck(OptionAt)
  {
  }

  lemma {:induction false} OptionsFromLength(check: OptionCheck, i: nat, data: seq<J>, j: nat)
    requires j <= |data|
    requires OptionsFrom(check, i, data, j).Success?
    ensures |OptionsFrom(check, i, data, j).value| == |data| - j
    decreases |data| - j
  {
    if j < |data| {
      OptionsFromLength(check, i, data, j + 1);
    }
  }

  /** Option `k` of the list from `j` on is what the check made of entry `j + k`. */
  lemma {:induction false} OptionsFromAt(check: OptionCheck, i: nat, data: seq<J>, j: nat, k: nat)
    requires j + k < |data|
    requires OptionsFrom(check, i, data, j).Success?
    ensures |OptionsFrom(check, i, data, j).value| == |data| - j
    ensures check(i, j + k, data[j + k]).Success?
    ensures OptionsFrom(check, i, data, j).value[k] == check(i, j + k, data[j + k]).value
    decreases k
  {
    OptionsFromLength(check, i, data, j);
    if k > 0 {
      OptionsFromAt(check, i, data, j + 1, k - 1);
      assert j + 1 + (k - 1) == j + k;
    }
  }

  /** The options of a question come out one per input entry, in input order,
      each mirroring its entry. */
  lemma OptionsFromSound(check: OptionCheck, i: nat, data: seq<J>, j: nat)
    requires SoundOptionCheck(check)
    requires j <= |data|
    requires OptionsFrom(check, i, data, j).Success?
    ensures |OptionsFrom(check, i, data, j).value| == |data| - j
    ensures forall k :: 0 <= k < |data| - j ==>
      && OptionFrom(data[j + k], OptionsFrom(check, i, data, j).value[k])
      && ValidOption(OptionsFrom(check, i, data, j).value[k])
  {
    OptionsFromLength(check, i, data, j);
    forall k | 0 <= k < |data| - j
      ensures OptionFrom(data[j + k], OptionsFrom(check, i, data, j).value[k])
      ensures ValidOption(OptionsFrom(check, i, data, j).value[k])
    {
      OptionsFromAt(check, i, data, j, k);
    }
  }

  /** Every entry from `j` on passes the check, so the whole list does. */
  lemma {:induction false} OptionsFromAccepted(check: OptionCheck, i: nat, data: seq<J>, j: nat)
    requires j <= |data|
    requires forall k :: j <= k < |data| ==> check(i, k, data[k]).Success?
    ensures OptionsFrom(check, i, data, j).Success?
    decreases |data| - j
  {
    if j < |data| {
      OptionsFromAccepted(check, i, data, j + 1);
    }
  }

  /** A failing option list fails at its first refused entry: every entry
      from `j` up to `k` passes the check, and entry `k`'s error is the list's. */
  lemma {:induction false} OptionsFromFailsAtFirst(check: OptionCheck, i: nat, data: seq<J>, j: nat) returns (k: nat)
    requires j <= |data|
    requires OptionsFrom(check, i, data, j).Failure?
    ensures j <= k < |data|
    ensures forall m :: j <= m < k ==> check(i, m, data[m]).Success?
    ensures check(i, k, data[k]) == Failure(OptionsFrom(check, i, data, j).error)
    decreases |data| - j
  {
    if check(i, j, data[j]).Failure? {
      k := j;
    } else {
      k := OptionsFromFailsAtFirst(check, i, data, j + 1);
    }
  }

  /** Conversely, when the entries from `j` up to `k` pass and entry `k` is
      refused, the list fails with entry `k`'s error. */
  lemma {:induction false} FirstBadOptionFails(check: OptionCheck, i: nat, data: seq<J>, j: nat, k: nat)
    requires j <= k < |data|
    requires forall m :: j <= m < k ==> check(i, m, data[m]).Success?
    requires check(i, k, data[k]).Failure?
    ensures OptionsFrom(check, i, data, j) == Failure(check(i, k, data[k]).error)
    decreases k - j
  {
    if j < k {
      FirstBadOptionFails(check, i, data, j + 1, k);
    }
  }

  /** `allow_freeform` of question `i` with `n` options: a boolean when present,
      `n == 0` when absent; false together with no options is an error. */
  function AllowFreeform(i: nat, f: map<string, J>, n: nat): (r: Result<bool, SpecError>)
    ensures r.Success? ==> r.value || n > 0
    ensures r.Success? && "allow_freeform" in f ==> f["allow_freeform"] == JBool(r.value)
    ensures r.Success? && "allow_freeform" !in f ==> r.value == (n == 0)
    ensures "allow_freeform" !in f ==> r == Success(n == 0)
    ensures "allow_freeform" in f && f["allow_freeform"].JBool? && (f["allow_freeform"].b || n > 0) ==>
      r == Success(f["allow_freeform"].b)
  {
    if "allow_freeform" in f && !f["allow_freeform"].JBool? then Failure(AllowFreeformNotBool(i))
    else
      var allow := if "allow_freeform" in f then f["allow_freeform"].b else n == 0;
      if !allow && n == 0 then Failure(NoOptionsNoFreeform(i))
      else Success(allow)
  }

  /** `freeform_label` of question `i`: a string with something other than
      whitespace in it, kept stripped; the default label when absent. The
      source strips the default too; `DefaultLabelIsStripped` shows that this
      leaves it as it is. */
  function FreeformLabel(i: nat, f: map<string, J>): (r: Result<string, SpecError>)
    ensures r.Success? ==> |r.value| >= 1 && IsStripped(r.value)
    ensures r.Success? && "freeform_label" in f ==>
      f["freeform_label"].JStr? && r.value == Strip(f["freeform_label"].s)
    ensures r.Success? && "freeform_label" !in f ==> r.value == DefaultFreeformLabel
    ensures "freeform_label" !in f ==> r.Success?
    ensures "freeform_label" in f && f["freeform_label"].JStr? && Strip(f["freeform_label"].s) != [] ==>
      r.Success?
  {
    if "freeform_label" !in f then
      DefaultLabelIsStripped();
      Success(DefaultFreeformLabel)
    else
      var given := f["freeform_label"];
      if !given.JStr? || Strip(given.s) == [] then Failure(FreeformLabelInvalid(i))
      else Success(Strip(given.s))
  }

  /** `multi_select` of question `i` with `n` options: a boolean, false when
      absent; when true, `n` must lie in [2, 15]. */
  function MultiSelect(i: nat, f: map<string, J>, n: nat): (r: Result<bool, SpecError>)
    ensures r.Success? && r.value ==> MinMultiselectOptions <= n <= MaxMultiselectOptions
    ensures r.Success? && "multi_select" in f ==> f["multi_select"] == JBool(r.value)
    ensures r.Success? && "multi_select" !in f ==> !r.value
    ensures var multi := GetOr(f, "multi_select", JBool(false));
      multi.JBool? && (multi.b ==> MinMultiselectOptions <= n <= MaxMultiselectOptions) ==> r == Success(multi.b)
  {
    var multi := GetOr(f, "multi_select", JBool(false));
    if !multi.JBool? then Failure(MultiSelectNotBool(i))
    else if multi.b && n < MinMultiselectOptions then Failure(MultiSelectTooFewOptions(i))
    else if multi.b && n > MaxMultiselectOptions then Failure(MultiSelectTooManyOptions(i))
    else Success(multi.b)
  }

  /** `key` of question `i` against the keys reserved so far: `q_dict.get("key")`
      reads an explicit `null` as no key. An own key must be a string the key
      pattern accepts and must not be reserved yet; without one, `question_<i>`
      must not be reserved yet. */
  function Key(i: nat, f: map<string, J>, seen: set<string>): (r: Result<Option<string>, SpecError>)
    ensures r.Success? ==> (r.value.None? <==> GetOr(f, "key", JNull) == JNull)
    ensures r.Success? && r.value.Some? ==> f["key"] == JStr(r.value.value) && KeyPatternMatches(r.value.value)
    ensures r.Success? ==> (if r.value.Some? then r.value.value else DefaultKey(i)) !in seen
    ensures GetOr(f, "key", JNull).JNull? && DefaultKey(i) !in seen ==> r == Success(None)
    ensures var key := GetOr(f, "key", JNull);
      key.JStr? && KeyPatternMatches(key.s) && key.s !in seen ==> r == Success(Some(key.s))
  {
    var key := GetOr(f, "key", JNull);
    if key.JNull? then
      if DefaultKey(i) in seen then Failure(GeneratedKeyConflict(DefaultKey(i))) else Success(None)
    else if !key.JStr? then Failure(KeyNotString(i))
    else if !KeyPatternMatches(key.s) then Failure(InvalidKey(i, key.s))
    else if key.s in seen then Failure(DuplicateKey(i, key.s))
    else Success(Some(key.s))
  }

  /** The `options` field of question `i`: a list, `[]` when absent, whose
      entries all validate as options. */
  function OptionsOf(i: nat, f: map<string, J>): Result<seq<QuestionOption>, SpecError> {
    var od := GetOr(f, "options", JArr([]));
    if !od.JArr? then Failure(OptionsNotList(i)) else OptionsFrom(OptionAt, i, od.items, 0)
  }

  /** The number of options the later checks see; only used once the options validated. */
  function OptionCount(options: Result<seq<QuestionOption>, SpecError>): nat {
    if options.Success? then |options.value| else 0
  }

  /** The outcomes of the field checks of one question, in the order the source
      runs them, combined: the first failure, or the question they describe. */
  function BuildQuestion(
    text: Result<string, SpecError>,
    options: Result<seq<QuestionOption>, SpecError>,
    allow: Result<bool, SpecError>,
    freeformLabel: Result<string, SpecError>,
    multi: Result<bool, SpecError>,
    key: Result<Option<string>, SpecError>): Result<Question, SpecError>
  {
    var text :- text;
    var options :- options;
    var allow :- allow;
    var freeformLabel :- freeformLabel;
    var multi :- multi;
    var key :- key;
    Success(Question(text, options, allow, key, freeformLabel, multi))
  }

  /** A question built from the checks' outcomes holds what each of them returned. */
  lemma BuiltFromParts(
    text: Result<string, SpecError>,
    options: Result<seq<QuestionOption>, SpecError>,
    allow: Result<bool, SpecError>,
    freeformLabel: Result<string, SpecError>,
    multi: Result<bool, SpecError>,
    key: Result<Option<string>, SpecError>)
    requires BuildQuestion(text, options, allow, freeformLabel, multi, key).Success?
    ensures text.Success? && options.Success? && allow.Success? && freeformLabel.Success? && multi.Success? && key.Success?
    ensures BuildQuestion(text, options, allow, freeformLabel, multi, key).value ==
      Question(text.value, options.value, allow.value, key.value, freeformLabel.value, multi.value)
  {
  }

  /** Question `i`, its fields checked in the source's order, given the keys
      `seen` reserved by the questions before it. */
  function QuestionAt(i: nat, qd: J, seen: set<string>): Result<Question, SpecError> {
    if !qd.JObj? then Failure(QuestionNotObject(i))
    else
      var f := qd.fields;
      var options := OptionsOf(i, f);
      BuildQuestion(QuestionText(i, f), options, AllowFreeform(i, f, OptionCount(options)),
                    FreeformLabel(i, f), MultiSelect(i, f, OptionCount(options)), Key(i, f, seen))
  }

  /** A question that validates mirrors its document, satisfies the question
      invariants and resolves to a key not reserved before it. */
  lemma QuestionAtSound(i: nat, qd: J, seen: set<string>)
    requires QuestionAt(i, qd, seen).Success?
    ensures var q := QuestionAt(i, qd, seen).value;
      QuestionFrom(qd, q) && ValidQuestion(q) && ResolvedKey(q, i) !in seen
  {
    var f := qd.fields;
    var od := GetOr(f, "options", JArr([]));
    var o := OptionsOf(i, f);
    var n := OptionCount(o);
    BuiltFromParts(QuestionText(i, f), o, AllowFreeform(i, f, n), FreeformLabel(i, f), MultiSelect(i, f, n), Key(i, f, seen));
    OptionAtIsSound();
    OptionsFromSound(OptionAt, i, od.items, 0);
  }

  /** A per-question validator: question `i`'s document and the keys reserved
      before it, to the question or the first error. */
  type QuestionCheck = (nat, J, set<string>) -> Result<Question, SpecError>

  /** The question loop over `data[i..]` with the validator `check`: each
      question reserves its resolved key before the next one is checked. */
  function QuestionsFrom(check: QuestionCheck, data: seq<J>, i: nat, seen: set<string>): Result<seq<Question>, SpecError>
    requires i <= |data|
    decreases |data| - i
  {
    if i == |data| then Success([])
    else
      var q := check(i, data[i], seen);
      if q.Failure? then Failure(q.error)
      else Prepend([q.value], QuestionsFrom(check, data, i + 1, seen + {ResolvedKey(q.value, i)}))
  }

  /** One step of the question loop: a question that fails ends it with its error. */
  lemma QuestionsFromFailure(check: QuestionCheck, data: seq<J>, i: nat, seen: set<string>)
    requires i < |data| && check(i, data[i], seen).Failure?
    ensures QuestionsFrom(check, data, i, seen) == Failure(check(i, data[i], seen).error)
  {
  }

  /** One step of the question loop: a question that validates is put in front
      of the rest, which is checked with its key reserved. */
  lemma QuestionsFromSuccess(check: QuestionCheck, data: seq<J>, i: nat, seen: set<string>)
    requires i < |data| && check(i, data[i], seen).Success?
    ensures var q := check(i, data[i], seen).value;
      QuestionsFrom(check, data, i, seen) == Prepend([q], QuestionsFrom(check, data, i + 1, seen + {ResolvedKey(q, i)}))
  {
  }

  /** `parse_spec(spec)`: the top level checks, then every question in order. */
  function Parsed(doc: J): Result<seq<Question>, SpecError> {
    if !doc.JObj? then Failure(SpecNotObject)
    else if "questions" !in doc.fields then Failure(MissingQuestions)
    else if !doc.fields["questions"].JArr? then Failure(QuestionsNotList)
    else if |doc.fields["questions"].items| > MaxQuestions then Failure(TooManyQuestions)
    else QuestionsFrom(QuestionAt, doc.fields["questions"].items, 0, {})
  }

  /** What one pass of the option loop does to its invariant. */
  lemma OptionLoopStep(check: OptionCheck, i: nat, data: seq<J>, j: nat, options: seq<QuestionOption>)
    requires j < |data|
    ensures check(i, j, data[j]).Failure? ==>
      Prepend(options, OptionsFrom(check, i, data, j)) == Failure(check(i, j, data[j]).error)
    ensures check(i, j, data[j]).Success? ==>
      Prepend(options, OptionsFrom(check, i, data, j))
        == Prepend(options + [check(i, j, data[j]).value], OptionsFrom(check, i, data, j + 1))
  {
    var o := check(i, j, data[j]);
    if o.Success? {
      PrependAssoc(options, [o.value], OptionsFrom(check, i, data, j + 1));
    }
  }

  /** The option loop of `parse_spec`: appends each option `check` accepts to a
      list and stops at the first it refuses. `ParseQuestion` runs it with
      `OptionAt`, the checks of one option. */
  method ParseOptions(check: OptionCheck, i: nat, data: seq<J>) returns (r: Result<seq<QuestionOption>, SpecError>)
    ensures r == OptionsFrom(check, i, data, 0)
  {
    var options: seq<QuestionOption> := [];
    var j := 0;
    PrependNil(OptionsFrom(check, i, data, 0));
    while j < |data|
      invariant 0 <= j <= |data|
      invariant OptionsFrom(check, i, data, 0) == Prepend(options, OptionsFrom(check, i, data, j))
    {
      var o := check(i, j, data[j]);
      OptionLoopStep(check, i, data, j, options);
      if o.Failure? {
        return Failure(o.error);
      }
      options := options + [o.value];
      j := j + 1;
    }
    assert options + [] == options;
    return Success(options);
  }

  /** The key checks of `parse_spec` for question `i`: resolves the key against the
      keys reserved so far and, once it is accepted, reserves it. */
  method ResolveKey(i: nat, f: map<string, J>, seenKeys: set<string>)
    returns (r: Result<Option<string>, SpecError>, seenAfter: set<string>)
    ensures r == Key(i, f, seenKeys)
    ensures r.Success? ==> seenAfter == seenKeys + {if r.value.Some? then r.value.value else DefaultKey(i)}
  {
    seenAfter := seenKeys;
    var keyData := GetOr(f, "key", JNull);
    if !keyData.JNull? {
      if !keyData.JStr? {
        return Failure(KeyNotString(i)), seenAfter;
      }
      if !KeyPatternMatches(keyData.s) {
        return Failure(InvalidKey(i, keyData.s)), seenAfter;
      }
      if keyData.s in seenAfter {
        return Failure(DuplicateKey(i, keyData.s)), seenAfter;
      }
      seenAfter := seenAfter + {keyData.s};
      r := Success(Some(keyData.s));
    } else {
      var defaultKey := DefaultKey(i);
      if defaultKey in seenAfter {
        return Failure(GeneratedKeyConflict(defaultKey)), seenAfter;
      }
      seenAfter := seenAfter + {defaultKey};
      r := Success(None);
    }
  }

  /** One pass of the question loop of `parse_spec`: checks question `i` field
      by field and, once its key is accepted, adds that key to the reserved set. */
  method ParseQuestion(i: nat, qd: J, seenKeys: set<string>)
    returns (r: Result<Question, SpecError>, seenAfter: set<string>)
    ensures r == QuestionAt(i, qd, seenKeys)
    ensures r.Success? ==> seenAfter == seenKeys + {ResolvedKey(r.value, i)}
  {
    seenAfter := seenKeys;
    if !qd.JObj? {
      return Failure(QuestionNotObject(i)), seenAfter;
    }
    var f := qd.fields;
    var text := QuestionText(i, f);
    if text.Failure? {
      return Failure(text.error), seenAfter;
    }
    var optionsData := GetOr(f, "options", JArr([]));
    if !optionsData.JArr? {
      return Failure(OptionsNotList(i)), seenAfter;
    }
    var options := ParseOptions(OptionAt, i, optionsData.items);
    if options.Failure? {
      return Failure(options.error), seenAfter;
    }
    var allow := AllowFreeform(i, f, |options.value|);
    if allow.Failure? {
      return Failure(allow.error), seenAfter;
    }
    var freeformLabel := FreeformLabel(i, f);
    if freeformLabel.Failure? {
      return Failure(freeformLabel.error), seenAfter;
    }
    var multi := MultiSelect(i, f, |options.value|);
    if multi.Failure? {
      return Failure(multi.error), seenAfter;
    }
    var key;
    key, seenAfter := ResolveKey(i, f, seenKeys);
    if key.Failure? {
      return Failure(key.error), seenAfter;
    }
    r := Success(Question(text.value, options.value, allow.value, key.value, freeformLabel.value, multi.value));
  }

  /** What one successful pass of the question loop does to its invariant. */
  lemma QuestionLoopStep(data: seq<J>, i: nat, questions: seq<Question>, seen: set<string>, q: Question)
    requires i < |data| && |questions| == i
    requires seen == KeySet(questions, 0)
    requires QuestionAt(i, data[i], seen) == Success(q)
    ensures KeySet(questions + [q], 0) == seen + {ResolvedKey(q, i)}
    ensures Prepend(questions, QuestionsFrom(QuestionAt, data, i, seen))
      == Prepend(questions + [q], QuestionsFrom(QuestionAt, data, i + 1, seen + {ResolvedKey(q, i)}))
  {
    QuestionsFromSuccess(QuestionAt, data, i, seen);
    PrependAssoc(questions, [q], QuestionsFrom(QuestionAt, data, i + 1, seen + {ResolvedKey(q, i)}));
    KeySetAppend(questions, q, 0);
  }

  /** The question loop of `parse_spec`: appends each question to `questions`
      and reserves its key in `seenKeys`, stopping at the first invalid one. */
  method ParseQuestions(questionsData: seq<J>) returns (r: Result<seq<Question>, SpecError>)
    ensures r == QuestionsFrom(QuestionAt, questionsData, 0, {})
  {
    var questions: seq<Question> := [];
    var seenKeys: set<string> := {};
    var i := 0;
    ghost var whole := QuestionsFrom(QuestionAt, questionsData, 0, {});
    PrependNil(whole);
    assert KeySet([], 0) == {};
    while i < |questionsData|
      invariant 0 <= i <= |questionsData|
      invariant |questions| == i
      invariant seenKeys == KeySet(questions, 0)
      invariant whole == Prepend(questions, QuestionsFrom(QuestionAt, questionsData, i, seenKeys))
    {
      var question, seenAfter := ParseQuestion(i, questionsData[i], seenKeys);
      if question.Failure? {
        QuestionsFromFailure(QuestionAt, questionsData, i, seenKeys);
        return Failure(question.error);
      }
      QuestionLoopStep(questionsData, i, questions, seenKeys, question.value);
      questions := questions + [question.value];
      seenKeys := seenAfter;
      i := i + 1;
    }
    assert questions + [] == questions;
    return Success(questions);
  }

  /** `parse_spec`: checks the top level, then runs the question loop. */
  method ParseSpec(doc: J) returns (r: Result<seq<Question>, SpecError>)
    ensures r == Parsed(doc)
  {
    if !doc.JObj? {
      return Failure(SpecNotObject);
    }
    if "questions" !in doc.fields {
      return Failure(MissingQuestions);
    }
    if !doc.fields["questions"].JArr? {
      return Failure(QuestionsNotList);
    }
    var questionsData := doc.fields["questions"].items;
    if |questionsData| > MaxQuestions {
      return Failure(TooManyQuestions);
    }
    r := ParseQuestions(questionsData);
  }
}
