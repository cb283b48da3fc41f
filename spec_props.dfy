/** What `parse_spec` promises: every returned question mirrors its input entry
    and satisfies the question invariants, the resolved keys are distinct, and a
    failure is the error of the first question that does not validate. */
module SpecProps {
  import opened Wrappers
  import opened Text
  import opened Json
  import opened Questions
  import opened SpecParser

  /** The question document `qd` carries its own key `k`. */
  predicate HasKey(qd: J, k: string) {
    qd.JObj? && "key" in qd.fields && qd.fields["key"] == JStr(k)
  }

  /** The question document `qd` has no key: the field is absent or `null`. */
  predicate HasNoKey(qd: J) {
    qd.JObj? && GetOr(qd.fields, "key", JNull) == JNull
  }

  /** The list of question documents of a document with a `questions` array. */
  function Items(doc: J): seq<J>
    requires doc.JObj? && "questions" in doc.fields && doc.fields["questions"].JArr?
  {
    doc.fields["questions"].items
  }

  /** The question loop from position `i` on returns one question per entry. */
  lemma {:induction false} QuestionsFromLength(check: QuestionCheck, data: seq<J>, i: nat, seen: set<string>)
    requires i <= |data|
    requires QuestionsFrom(check, data, i, seen).Success?
    ensures |QuestionsFrom(check, data, i, seen).value| == |data| - i
    decreases |data| - i
  {
    if i < |data| {
      var q := check(i, data[i], seen);
      assert q.Success?;
      QuestionsFromLength(check, data, i + 1, seen + {ResolvedKey(q.value, i)});
    }
  }

  /** The question the loop returns for entry `k` is what the validator makes
      of that entry given the keys reserved before it: those of `seen` and of
      the questions returned for the entries `i` to `k - 1`. */
  lemma {:induction false} QuestionsFromAt(check: QuestionCheck, data: seq<J>, i: nat, seen: set<string>, k: nat)
    requires i <= k < |data|
    requires QuestionsFrom(check, data, i, seen).Success?
    ensures k - i < |QuestionsFrom(check, data, i, seen).value|
    ensures var r := QuestionsFrom(check, data, i, seen).value;
      check(k, data[k], seen + KeySet(r[..k - i], i)) == Success(r[k - i])
    decreases k - i
  {
    QuestionsFromLength(check, data, i, seen);
    var q := check(i, data[i], seen);
    assert q.Success?;
    var seen' := seen + {ResolvedKey(q.value, i)};
    var restr := QuestionsFrom(check, data, i + 1, seen');
    assert restr.Success?;
    var r := QuestionsFrom(check, data, i, seen).value;
    assert r == [q.value] + restr.value;
    if k == i {
      assert r[..0] == [];
      assert seen + KeySet(r[..0], i) == seen;
    } else {
      QuestionsFromAt(check, data, i + 1, seen', k);
      var rest := restr.value;
      assert r[..k - i] == [q.value] + rest[..k - (i + 1)];
      KeySetCons(q.value, rest[..k - (i + 1)], i);
      assert seen + KeySet(r[..k - i], i) == seen' + KeySet(rest[..k - (i + 1)], i + 1);
      assert r[k - i] == rest[k - (i + 1)];
    }
  }

  lemma KeySetCons(q: Question, qs: seq<Question>, base: nat)
    ensures KeySet([q] + qs, base) == {ResolvedKey(q, base)} + KeySet(qs, base + 1)
  {
    assert ([q] + qs)[1..] == qs;
  }

  /** Validating the entries from `i` on is validating those before `k`, then
      the rest with their keys reserved: validation is one forward pass. */
  lemma {:induction false} QuestionsFromSplit(check: QuestionCheck, data: seq<J>, i: nat, k: nat, seen: set<string>)
    requires i <= k <= |data|
    ensures QuestionsFrom(check, data, i, seen) ==
      match QuestionsFrom(check, data[..k], i, seen)
      case Failure(e) => Failure(e)
      case Success(p) => Prepend(p, QuestionsFrom(check, data, k, seen + KeySet(p, i)))
    decreases k - i
  {
    if i == k {
      assert KeySet([], i) == {};
      assert seen + {} == seen;
      PrependNil(QuestionsFrom(check, data, k, seen));
    } else {
      assert data[..k][i] == data[i];
      var q := check(i, data[i], seen);
      if q.Success? {
        var seen' := seen + {ResolvedKey(q.value, i)};
        QuestionsFromSplit(check, data, i + 1, k, seen');
        match QuestionsFrom(check, data[..k], i + 1, seen')
        case Failure(e) =>
        case Success(p) =>
          KeySetCons(q.value, p, i);
          assert seen' + KeySet(p, i + 1) == seen + KeySet([q.value] + p, i);
          PrependAssoc([q.value], p, QuestionsFrom(check, data, k, seen' + KeySet(p, i + 1)));
      }
    }
  }

  /** `parse_spec` on success: the document has a `questions` list of at most
      100 entries, and the result has exactly one question per entry, in input
      order, each mirroring its entry and satisfying the question invariants,
      with pairwise distinct resolved keys. */
  lemma ParsedSound(doc: J)
    requires Parsed(doc).Success?
    ensures doc.JObj? && "questions" in doc.fields && doc.fields["questions"].JArr?
    ensures |Parsed(doc).value| == |Items(doc)| <= MaxQuestions
    ensures forall k :: 0 <= k < |Items(doc)| ==>
      QuestionFrom(Items(doc)[k], Parsed(doc).value[k]) && ValidQuestion(Parsed(doc).value[k])
    ensures DistinctResolvedKeys(Parsed(doc).value, 0)
  {
    var data := Items(doc);
    QuestionsFromLength(QuestionAt, data, 0, {});
    forall k | 0 <= k < |data|
      ensures QuestionFrom(data[k], QuestionsFrom(QuestionAt, data, 0, {}).value[k])
      ensures ValidQuestion(QuestionsFrom(QuestionAt, data, 0, {}).value[k])
    {
      ValidatedQuestionSound(data, k);
    }
    ValidatedKeysDistinct(data);
  }

  /** The question returned for entry `k` mirrors it and satisfies the invariants. */
  lemma ValidatedQuestionSound(data: seq<J>, k: nat)
    requires k < |data|
    requires QuestionsFrom(QuestionAt, data, 0, {}).Success?
    ensures k < |QuestionsFrom(QuestionAt, data, 0, {}).value|
    ensures QuestionFrom(data[k], QuestionsFrom(QuestionAt, data, 0, {}).value[k])
    ensures ValidQuestion(QuestionsFrom(QuestionAt, data, 0, {}).value[k])
  {
    var r := QuestionsFrom(QuestionAt, data, 0, {}).value;
    QuestionsFromAt(QuestionAt, data, 0, {}, k);
    QuestionAtSound(k, data[k], {} + KeySet(r[..k], 0));
  }

  /** The question returned for entry `k` resolves to a key that no question
      before it resolves to. */
  lemma ValidatedKeyFresh(data: seq<J>, k: nat)
    requires k < |data|
    requires QuestionsFrom(QuestionAt, data, 0, {}).Success?
    ensures k < |QuestionsFrom(QuestionAt, data, 0, {}).value|
    ensures ResolvedKey(QuestionsFrom(QuestionAt, data, 0, {}).value[k], k)
      !in KeySet(QuestionsFrom(QuestionAt, data, 0, {}).value[..k], 0)
  {
    var r := QuestionsFrom(QuestionAt, data, 0, {}).value;
    QuestionsFromAt(QuestionAt, data, 0, {}, k);
    QuestionAtSound(k, data[k], {} + KeySet(r[..k], 0));
  }

  /** A list in which every question's resolved key avoids the keys of the
      questions before it has pairwise distinct resolved keys. */
  lemma FreshKeysAreDistinct(r: seq<Question>)
    requires forall b :: 0 <= b < |r| ==> ResolvedKey(r[b], b) !in KeySet(r[..b], 0)
    ensures DistinctResolvedKeys(r, 0)
  {
    forall a, b | 0 <= a < b < |r|
      ensures ResolvedKey(r[a], a) != ResolvedKey(r[b], b)
    {
      KeySetHas(r[..b], 0, a);
      assert r[..b][a] == r[a];
    }
  }

  /** No two returned questions share a resolved key. */
  lemma ValidatedKeysDistinct(data: seq<J>)
    requires QuestionsFrom(QuestionAt, data, 0, {}).Success?
    ensures DistinctResolvedKeys(QuestionsFrom(QuestionAt, data, 0, {}).value, 0)
  {
    QuestionsFromLength(QuestionAt, data, 0, {});
    forall b | 0 <= b < |data|
      ensures ResolvedKey(QuestionsFrom(QuestionAt, data, 0, {}).value[b], b)
        !in KeySet(QuestionsFrom(QuestionAt, data, 0, {}).value[..b], 0)
    {
      ValidatedKeyFresh(data, b);
    }
    FreshKeysAreDistinct(QuestionsFrom(QuestionAt, data, 0, {}).value);
  }

  /** More than 100 questions are refused before any question is looked at. */
  lemma TooManyQuestionsRefused(doc: J)
    requires doc.JObj? && "questions" in doc.fields && doc.fields["questions"].JArr?
    requires |Items(doc)| > MaxQuestions
    ensures Parsed(doc) == Failure(TooManyQuestions)
  {
  }

  /** The keys reserved by the questions that validate before entry `k`. */
  function ReservedBefore(data: seq<J>, k: nat): set<string>
    requires k <= |data|
    requires QuestionsFrom(QuestionAt, data[..k], 0, {}).Success?
  {
    KeySet(QuestionsFrom(QuestionAt, data[..k], 0, {}).value, 0)
  }

  /** A failed validation fails at some question `k`: every question before it
      validates, and `k` fails with the error returned, given the keys those
      questions reserved. */
  lemma ParsedFailsAtFirstBadQuestion(doc: J) returns (k: nat)
    requires doc.JObj? && "questions" in doc.fields && doc.fields["questions"].JArr?
    requires |Items(doc)| <= MaxQuestions
    requires Parsed(doc).Failure?
    ensures k < |Items(doc)|
    ensures QuestionsFrom(QuestionAt, Items(doc)[..k], 0, {}).Success?
    ensures QuestionAt(k, Items(doc)[k], ReservedBefore(Items(doc), k)) == Failure(Parsed(doc).error)
  {
    var data := Items(doc);
    k := 0;
    while k < |data| && QuestionsFrom(QuestionAt, data[..k + 1], 0, {}).Success?
      invariant 0 <= k <= |data|
      invariant QuestionsFrom(QuestionAt, data[..k], 0, {}).Success?
      decreases |data| - k
    {
      k := k + 1;
    }
    QuestionsFromSplit(QuestionAt, data, 0, k, {});
    var p := QuestionsFrom(QuestionAt, data[..k], 0, {}).value;
    var seen := {} + KeySet(p, 0);
    assert seen == KeySet(p, 0);
    if k == |data| {
      assert false;
    }
    var prefix := data[..k + 1];
    QuestionsFromSplit(QuestionAt, prefix, 0, k, {});
    assert prefix[..k] == data[..k];
    assert prefix[k] == data[k];
    QuestionsFromSplit(QuestionAt, data, k, k + 1, seen);
    assert data[..k + 1][k] == data[k];
  }

  /** Conversely, questions that validate up to `k` followed by a question `k`
      that fails make the whole document fail with that question's error. */
  lemma FirstBadQuestionFailsParse(doc: J, k: nat)
    requires doc.JObj? && "questions" in doc.fields && doc.fields["questions"].JArr?
    requires |Items(doc)| <= MaxQuestions
    requires k < |Items(doc)|
    requires QuestionsFrom(QuestionAt, Items(doc)[..k], 0, {}).Success?
    requires QuestionAt(k, Items(doc)[k], ReservedBefore(Items(doc), k)).Failure?
    ensures Parsed(doc) == Failure(QuestionAt(k, Items(doc)[k], ReservedBefore(Items(doc), k)).error)
  {
    var data := Items(doc);
    QuestionsFromSplit(QuestionAt, data, 0, k, {});
    var p := QuestionsFrom(QuestionAt, data[..k], 0, {}).value;
    assert {} + KeySet(p, 0) == KeySet(p, 0);
  }

  /** Two questions with the same own key never validate together. */
  lemma DuplicateOwnKeysRefused(doc: J, a: nat, b: nat, k: string)
    requires doc.JObj? && "questions" in doc.fields && doc.fields["questions"].JArr?
    requires a < b < |Items(doc)|
    requires HasKey(Items(doc)[a], k) && HasKey(Items(doc)[b], k)
    ensures Parsed(doc).Failure?
  {
    if Parsed(doc).Success? {
      ParsedSound(doc);
    }
  }

  /** An own key `question_<b>` never validates together with a keyless question
      at position `b`, whichever of the two comes first. */
  lemma OwnKeyEqualToDefaultKeyRefused(doc: J, a: nat, b: nat)
    requires doc.JObj? && "questions" in doc.fields && doc.fields["questions"].JArr?
    requires a < |Items(doc)| && b < |Items(doc)| && a != b
    requires HasKey(Items(doc)[a], DefaultKey(b)) && HasNoKey(Items(doc)[b])
    ensures Parsed(doc).Failure?
  {
    if Parsed(doc).Success? {
      ParsedSound(doc);
    }
  }

  /** A document of keyless questions that validates reserves exactly
      `question_0`, ..., `question_<n-1>`. */
  lemma KeylessQuestionsReserveDefaults(doc: J)
    requires Parsed(doc).Success?
    requires doc.JObj? && "questions" in doc.fields && doc.fields["questions"].JArr?
    requires forall k :: 0 <= k < |Items(doc)| ==> HasNoKey(Items(doc)[k])
    ensures KeySet(Parsed(doc).value, 0) == set k | 0 <= k < |Items(doc)| :: DefaultKey(k)
  {
    var data := Items(doc);
    QuestionsFromLength(QuestionAt, data, 0, {});
    forall m | 0 <= m < |data|
      ensures ResolvedKey(QuestionsFrom(QuestionAt, data, 0, {}).value[m], m) == DefaultKey(m)
    {
      ValidatedKeylessDefault(data, m);
    }
    DefaultKeySet(QuestionsFrom(QuestionAt, data, 0, {}).value);
  }

  /** A keyless entry's question resolves to the default key of its position. */
  lemma ValidatedKeylessDefault(data: seq<J>, k: nat)
    requires k < |data| && HasNoKey(data[k])
    requires QuestionsFrom(QuestionAt, data, 0, {}).Success?
    ensures k < |QuestionsFrom(QuestionAt, data, 0, {}).value|
    ensures ResolvedKey(QuestionsFrom(QuestionAt, data, 0, {}).value[k], k) == DefaultKey(k)
  {
    ValidatedQuestionSound(data, k);
  }

  /** Questions that all resolve to their default keys reserve exactly those. */
  lemma {:induction false} DefaultKeySet(r: seq<Question>)
    requires forall m :: 0 <= m < |r| ==> ResolvedKey(r[m], m) == DefaultKey(m)
    ensures KeySet(r, 0) == set k | 0 <= k < |r| :: DefaultKey(k)
  {
    var s := set k | 0 <= k < |r| :: DefaultKey(k);
    forall x | x in KeySet(r, 0)
      ensures x in s
    {
      var m := KeySetWitness(r, 0, x);
      assert ResolvedKey(r[m], m) == DefaultKey(m);
    }
    forall x | x in s
      ensures x in KeySet(r, 0)
    {
      var k :| 0 <= k < |r| && x == DefaultKey(k);
      DefaultKeyReserved(r, k);
    }
  }

  /** A question that resolves to its default key reserves it. */
  lemma {:induction false} DefaultKeyReserved(r: seq<Question>, k: nat)
    requires k < |r| && ResolvedKey(r[k], k) == DefaultKey(k)
    ensures DefaultKey(k) in KeySet(r, 0)
  {
    KeySetHas(r, 0, k);
  }

  /** `QuestionAt` is its field checks combined in order. */
  lemma QuestionAtStages(i: nat, f: map<string, J>, seen: set<string>)
    ensures QuestionAt(i, JObj(f), seen) ==
      BuildQuestion(QuestionText(i, f), OptionsOf(i, f), AllowFreeform(i, f, OptionCount(OptionsOf(i, f))),
                    FreeformLabel(i, f), MultiSelect(i, f, OptionCount(OptionsOf(i, f))), Key(i, f, seen))
  {
  }

  /** The checks of one question run in the source's order and the first that
      fails decides the error: the text, then the options, `allow_freeform`,
      `freeform_label`, `multi_select` and last the key. When all pass, the
      question holds what each returned. */
  lemma QuestionChecksInOrder(i: nat, f: map<string, J>, seen: set<string>)
    ensures var t := QuestionText(i, f);
      t.Failure? ==> QuestionAt(i, JObj(f), seen) == Failure(t.error)
    ensures var t, o := QuestionText(i, f), OptionsOf(i, f);
      t.Success? && o.Failure? ==> QuestionAt(i, JObj(f), seen) == Failure(o.error)
    ensures var t, o := QuestionText(i, f), OptionsOf(i, f);
      var a := AllowFreeform(i, f, OptionCount(o));
      t.Success? && o.Success? && a.Failure? ==> QuestionAt(i, JObj(f), seen) == Failure(a.error)
    ensures var t, o := QuestionText(i, f), OptionsOf(i, f);
      var a, l := AllowFreeform(i, f, OptionCount(o)), FreeformLabel(i, f);
      t.Success? && o.Success? && a.Success? && l.Failure? ==> QuestionAt(i, JObj(f), seen) == Failure(l.error)
    ensures var t, o := QuestionText(i, f), OptionsOf(i, f);
      var a, l, m := AllowFreeform(i, f, OptionCount(o)), FreeformLabel(i, f), MultiSelect(i, f, OptionCount(o));
      t.Success? && o.Success? && a.Success? && l.Success? && m.Failure? ==>
        QuestionAt(i, JObj(f), seen) == Failure(m.error)
    ensures var t, o := QuestionText(i, f), OptionsOf(i, f);
      var a, l, m := AllowFreeform(i, f, OptionCount(o)), FreeformLabel(i, f), MultiSelect(i, f, OptionCount(o));
      var k := Key(i, f, seen);
      t.Success? && o.Success? && a.Success? && l.Success? && m.Success? && k.Failure? ==>
        QuestionAt(i, JObj(f), seen) == Failure(k.error)
    ensures var t, o := QuestionText(i, f), OptionsOf(i, f);
      var a, l, m := AllowFreeform(i, f, OptionCount(o)), FreeformLabel(i, f), MultiSelect(i, f, OptionCount(o));
      var k := Key(i, f, seen);
      t.Success? && o.Success? && a.Success? && l.Success? && m.Success? && k.Success? ==>
        QuestionAt(i, JObj(f), seen) == Success(Question(t.value, o.value, a.value, k.value, l.value, m.value))
  {
  }

  /** Each field check reads only its own field: a change to another field
      `name` leaves its outcome as it was. */
  lemma QuestionTextIgnores(i: nat, f: map<string, J>, name: string, v: J)
    requires name != "question"
    ensures QuestionText(i, f[name := v]) == QuestionText(i, f)
  {
    var g := f[name := v];
    assert (if "question" in g then Some(g["question"]) else None)
        == (if "question" in f then Some(f["question"]) else None);
  }

  lemma OptionsOfIgnores(i: nat, f: map<string, J>, name: string, v: J)
    requires name != "options"
    ensures OptionsOf(i, f[name := v]) == OptionsOf(i, f)
  {
  }

  lemma AllowFreeformIgnores(i: nat, f: map<string, J>, name: string, v: J, n: nat)
    requires name != "allow_freeform"
    ensures AllowFreeform(i, f[name := v], n) == AllowFreeform(i, f, n)
  {
  }

  lemma FreeformLabelIgnores(i: nat, f: map<string, J>, name: string, v: J)
    requires name != "freeform_label"
    ensures FreeformLabel(i, f[name := v]) == FreeformLabel(i, f)
  {
    var g := f[name := v];
    assert ("freeform_label" in g) == ("freeform_label" in f);
    if "freeform_label" in f {
      assert g["freeform_label"] == f["freeform_label"];
    }
  }

  lemma MultiSelectIgnores(i: nat, f: map<string, J>, name: string, v: J, n: nat)
    requires name != "multi_select"
    ensures MultiSelect(i, f[name := v], n) == MultiSelect(i, f, n)
  {
  }

  lemma KeyIgnores(i: nat, f: map<string, J>, name: string, v: J, seen: set<string>)
    requires name != "key"
    ensures Key(i, f[name := v], seen) == Key(i, f, seen)
  {
  }

  /** Replacing the outcome of one check of a question whose checks all pass:
      a failure becomes the question's error, a value lands in its field. */
  lemma BuildWithAllow(t: Result<string, SpecError>, o: Result<seq<QuestionOption>, SpecError>,
                       a: Result<bool, SpecError>, l: Result<string, SpecError>, m: Result<bool, SpecError>,
                       k: Result<Option<string>, SpecError>, a': Result<bool, SpecError>)
    requires BuildQuestion(t, o, a, l, m, k).Success?
    ensures BuildQuestion(t, o, a', l, m, k) ==
      if a'.Failure? then Failure(a'.error) else Success(BuildQuestion(t, o, a, l, m, k).value.(allowFreeform := a'.value))
  {
  }

  lemma BuildWithLabel(t: Result<string, SpecError>, o: Result<seq<QuestionOption>, SpecError>,
                       a: Result<bool, SpecError>, l: Result<string, SpecError>, m: Result<bool, SpecError>,
                       k: Result<Option<string>, SpecError>, l': Result<string, SpecError>)
    requires BuildQuestion(t, o, a, l, m, k).Success?
    ensures BuildQuestion(t, o, a, l', m, k) ==
      if l'.Failure? then Failure(l'.error) else Success(BuildQuestion(t, o, a, l, m, k).value.(freeformLabel := l'.value))
  {
  }

  lemma BuildWithMulti(t: Result<string, SpecError>, o: Result<seq<QuestionOption>, SpecError>,
                       a: Result<bool, SpecError>, l: Result<string, SpecError>, m: Result<bool, SpecError>,
                       k: Result<Option<string>, SpecError>, m': Result<bool, SpecError>)
    requires BuildQuestion(t, o, a, l, m, k).Success?
    ensures BuildQuestion(t, o, a, l, m', k) ==
      if m'.Failure? then Failure(m'.error) else Success(BuildQuestion(t, o, a, l, m, k).value.(multiSelect := m'.value))
  {
  }

  lemma BuildWithKey(t: Result<string, SpecError>, o: Result<seq<QuestionOption>, SpecError>,
                     a: Result<bool, SpecError>, l: Result<string, SpecError>, m: Result<bool, SpecError>,
                     k: Result<Option<string>, SpecError>, k': Result<Option<string>, SpecError>)
    requires BuildQuestion(t, o, a, l, m, k).Success?
    ensures BuildQuestion(t, o, a, l, m, k') ==
      if k'.Failure? then Failure(k'.error) else Success(BuildQuestion(t, o, a, l, m, k).value.(key := k'.value))
  {
  }

  /** The options of a question that validates are what its options check returned. */
  lemma BuiltOptions(t: Result<string, SpecError>, o: Result<seq<QuestionOption>, SpecError>,
                     a: Result<bool, SpecError>, l: Result<string, SpecError>, m: Result<bool, SpecError>,
                     k: Result<Option<string>, SpecError>)
    requires BuildQuestion(t, o, a, l, m, k).Success?
    ensures o.Success? && BuildQuestion(t, o, a, l, m, k).value.options == o.value
  {
  }

  /** Turning `multi_select` on in a question that validates: fewer than 2
      options fail with the "at least" error, more than 15 with the "at most"
      error, and otherwise the same question comes back as multi-select. */
  lemma MultiSelectBounds(i: nat, f: map<string, J>, seen: set<string>)
    requires QuestionAt(i, JObj(f), seen).Success?
    ensures var q := QuestionAt(i, JObj(f), seen).value;
      QuestionAt(i, JObj(f["multi_select" := JBool(true)]), seen) ==
        if |q.options| < MinMultiselectOptions then Failure(MultiSelectTooFewOptions(i))
        else if |q.options| > MaxMultiselectOptions then Failure(MultiSelectTooManyOptions(i))
        else Success(q.(multiSelect := true))
  {
    var g := f["multi_select" := JBool(true)];
    var o := OptionsOf(i, f);
    var n := OptionCount(o);
    QuestionTextIgnores(i, f, "multi_select", JBool(true));
    OptionsOfIgnores(i, f, "multi_select", JBool(true));
    AllowFreeformIgnores(i, f, "multi_select", JBool(true), n);
    FreeformLabelIgnores(i, f, "multi_select", JBool(true));
    KeyIgnores(i, f, "multi_select", JBool(true), seen);
    QuestionAtStages(i, f, seen);
    QuestionAtStages(i, g, seen);
    BuiltOptions(QuestionText(i, f), o, AllowFreeform(i, f, n), FreeformLabel(i, f), MultiSelect(i, f, n), Key(i, f, seen));
    BuildWithMulti(QuestionText(i, f), o, AllowFreeform(i, f, n), FreeformLabel(i, f), MultiSelect(i, f, n),
                   Key(i, f, seen), MultiSelect(i, g, n));
  }

  /** Turning `allow_freeform` off in a validating question without options
      fails with the "no options" error. */
  lemma NoOptionsNeedFreeform(i: nat, f: map<string, J>, seen: set<string>)
    requires QuestionAt(i, JObj(f), seen).Success?
    requires QuestionAt(i, JObj(f), seen).value.options == []
    ensures QuestionAt(i, JObj(f["allow_freeform" := JBool(false)]), seen) == Failure(NoOptionsNoFreeform(i))
  {
    var g := f["allow_freeform" := JBool(false)];
    var o := OptionsOf(i, f);
    var n := OptionCount(o);
    QuestionTextIgnores(i, f, "allow_freeform", JBool(false));
    OptionsOfIgnores(i, f, "allow_freeform", JBool(false));
    FreeformLabelIgnores(i, f, "allow_freeform", JBool(false));
    MultiSelectIgnores(i, f, "allow_freeform", JBool(false), n);
    KeyIgnores(i, f, "allow_freeform", JBool(false), seen);
    QuestionAtStages(i, f, seen);
    QuestionAtStages(i, g, seen);
    BuiltOptions(QuestionText(i, f), o, AllowFreeform(i, f, n), FreeformLabel(i, f), MultiSelect(i, f, n), Key(i, f, seen));
    BuildWithAllow(QuestionText(i, f), o, AllowFreeform(i, f, n), FreeformLabel(i, f), MultiSelect(i, f, n),
                   Key(i, f, seen), AllowFreeform(i, g, n));
  }

  /** Setting `freeform_label` in a validating question: an all-whitespace label
      is refused, any other is stored stripped. */
  lemma FreeformLabelStored(i: nat, f: map<string, J>, seen: set<string>, newLabel: string)
    requires QuestionAt(i, JObj(f), seen).Success?
    ensures QuestionAt(i, JObj(f["freeform_label" := JStr(newLabel)]), seen) ==
      if Strip(newLabel) == [] then Failure(FreeformLabelInvalid(i))
      else Success(QuestionAt(i, JObj(f), seen).value.(freeformLabel := Strip(newLabel)))
  {
    var g := f["freeform_label" := JStr(newLabel)];
    var o := OptionsOf(i, f);
    var n := OptionCount(o);
    QuestionTextIgnores(i, f, "freeform_label", JStr(newLabel));
    OptionsOfIgnores(i, f, "freeform_label", JStr(newLabel));
    AllowFreeformIgnores(i, f, "freeform_label", JStr(newLabel), n);
    MultiSelectIgnores(i, f, "freeform_label", JStr(newLabel), n);
    KeyIgnores(i, f, "freeform_label", JStr(newLabel), seen);
    QuestionAtStages(i, f, seen);
    QuestionAtStages(i, g, seen);
    BuildWithLabel(QuestionText(i, f), o, AllowFreeform(i, f, n), FreeformLabel(i, f), MultiSelect(i, f, n),
                   Key(i, f, seen), FreeformLabel(i, g));
  }

  /** Giving a question that validates on its own a key the pattern accepts: it
      is refused as a duplicate exactly when an earlier question reserved it. */
  lemma OwnKeyAgainstReserved(i: nat, f: map<string, J>, seen: set<string>, k: string)
    requires QuestionAt(i, JObj(f), {}).Success?
    requires KeyPatternMatches(k)
    ensures QuestionAt(i, JObj(f["key" := JStr(k)]), seen) ==
      if k in seen then Failure(DuplicateKey(i, k))
      else Success(QuestionAt(i, JObj(f), {}).value.(key := Some(k)))
  {
    var g := f["key" := JStr(k)];
    var o := OptionsOf(i, f);
    var n := OptionCount(o);
    QuestionTextIgnores(i, f, "key", JStr(k));
    OptionsOfIgnores(i, f, "key", JStr(k));
    AllowFreeformIgnores(i, f, "key", JStr(k), n);
    FreeformLabelIgnores(i, f, "key", JStr(k));
    MultiSelectIgnores(i, f, "key", JStr(k), n);
    QuestionAtStages(i, f, {});
    QuestionAtStages(i, g, seen);
    BuildWithKey(QuestionText(i, f), o, AllowFreeform(i, f, n), FreeformLabel(i, f), MultiSelect(i, f, n),
                 Key(i, f, {}), Key(i, g, seen));
  }

  /** A keyless question that validates on its own is refused with the
      "conflicts" error exactly when `question_<i>` was reserved before it. */
  lemma DefaultKeyAgainstReserved(i: nat, f: map<string, J>, seen: set<string>)
    requires QuestionAt(i, JObj(f), {}).Success?
    requires GetOr(f, "key", JNull) == JNull
    ensures QuestionAt(i, JObj(f), seen) ==
      if DefaultKey(i) in seen then Failure(GeneratedKeyConflict(DefaultKey(i)))
      else QuestionAt(i, JObj(f), {})
  {
  }

  /** The key a question document resolves to: its own key when it gives a
      string, `question_<i>` otherwise. */
  function DocKey(i: nat, qd: J): string {
    if qd.JObj? && GetOr(qd.fields, "key", JNull).JStr? then GetOr(qd.fields, "key", JNull).s else DefaultKey(i)
  }

  /** The rules for each field of a question document, read off the document. */
  predicate TextOk(f: map<string, J>) {
    "question" in f && f["question"].JStr? && 1 <= |Strip(f["question"].s)| <= MaxQuestionLength
  }

  predicate OptionsOk(f: map<string, J>) {
    var od := GetOr(f, "options", JArr([]));
    od.JArr? && forall j :: 0 <= j < |od.items| ==> AcceptableOption(od.items[j])
  }

  /** The number of option entries, `0` when `options` is not a list. */
  function OptionDocCount(f: map<string, J>): nat {
    var od := GetOr(f, "options", JArr([]));
    if od.JArr? then |od.items| else 0
  }

  predicate AllowOk(f: map<string, J>, n: nat) {
    "allow_freeform" in f ==> f["allow_freeform"].JBool? && (f["allow_freeform"].b || n > 0)
  }

  predicate LabelOk(f: map<string, J>) {
    "freeform_label" in f ==> f["freeform_label"].JStr? && Strip(f["freeform_label"].s) != []
  }

  predicate MultiOk(f: map<string, J>, n: nat) {
    var multi := GetOr(f, "multi_select", JBool(false));
    multi.JBool? && (multi.b ==> MinMultiselectOptions <= n <= MaxMultiselectOptions)
  }

  predicate KeyOk(f: map<string, J>) {
    var key := GetOr(f, "key", JNull);
    key.JNull? || (key.JStr? && KeyPatternMatches(key.s))
  }

  /** What the checks of a question ask of its document, leaving aside whether
      its key is already reserved: an object with a `question` string of 1 to
      500 characters once stripped; an `options` list, if any, of acceptable
      options; a boolean `allow_freeform`, if any, that is not false without
      options; a `freeform_label`, if any, with something besides whitespace; a
      boolean `multi_select`, if any, that is true only with 2 to 15 options;
      and a `key` that is absent, `null` or a string the key pattern accepts. */
  predicate AcceptableFields(qd: J) {
    && qd.JObj?
    && TextOk(qd.fields)
    && OptionsOk(qd.fields)
    && AllowOk(qd.fields, OptionDocCount(qd.fields))
    && LabelOk(qd.fields)
    && MultiOk(qd.fields, OptionDocCount(qd.fields))
    && KeyOk(qd.fields)
  }

  lemma TextChecked(i: nat, f: map<string, J>)
    ensures QuestionText(i, f).Success? <==> TextOk(f)
  {
  }

  lemma OptionsChecked(i: nat, f: map<string, J>)
    ensures OptionsOf(i, f).Success? <==> OptionsOk(f)
    ensures OptionsOf(i, f).Success? ==> |OptionsOf(i, f).value| == OptionDocCount(f)
  {
    var od := GetOr(f, "options", JArr([]));
    if OptionsOf(i, f).Success? {
      OptionsFromLength(OptionAt, i, od.items, 0);
      forall j | 0 <= j < |od.items|
        ensures AcceptableOption(od.items[j])
      {
        OptionsFromAt(OptionAt, i, od.items, 0, j);
      }
    }
    if OptionsOk(f) {
      OptionsFromAccepted(OptionAt, i, od.items, 0);
    }
  }

  lemma AllowChecked(i: nat, f: map<string, J>, n: nat)
    ensures AllowFreeform(i, f, n).Success? <==> AllowOk(f, n)
  {
  }

  lemma LabelChecked(i: nat, f: map<string, J>)
    ensures FreeformLabel(i, f).Success? <==> LabelOk(f)
  {
  }

  lemma MultiChecked(i: nat, f: map<string, J>, n: nat)
    ensures MultiSelect(i, f, n).Success? <==> MultiOk(f, n)
  {
  }

  lemma KeyChecked(i: nat, f: map<string, J>, seen: set<string>)
    ensures Key(i, f, seen).Success? <==> KeyOk(f) && DocKey(i, JObj(f)) !in seen
    ensures var r := Key(i, f, seen);
      r.Success? ==> (if r.value.Some? then r.value.value else DefaultKey(i)) == DocKey(i, JObj(f))
  {
  }

  /** The checks of a question combine into a question exactly when all pass,
      and the question carries the key the key check resolved. */
  lemma BuildQuestionSuccess(
    t: Result<string, SpecError>, o: Result<seq<QuestionOption>, SpecError>, a: Result<bool, SpecError>,
    l: Result<string, SpecError>, m: Result<bool, SpecError>, k: Result<Option<string>, SpecError>)
    ensures BuildQuestion(t, o, a, l, m, k).Success? <==>
      t.Success? && o.Success? && a.Success? && l.Success? && m.Success? && k.Success?
    ensures BuildQuestion(t, o, a, l, m, k).Success? ==> BuildQuestion(t, o, a, l, m, k).value.key == k.value
  {
  }

  /** Question `i` validates against the reserved keys `seen` exactly when its
      document meets the rules and the key it resolves to is not reserved; the
      question then resolves to that key. */
  lemma QuestionAccepted(i: nat, qd: J, seen: set<string>)
    ensures QuestionAt(i, qd, seen).Success? <==> AcceptableFields(qd) && DocKey(i, qd) !in seen
    ensures QuestionAt(i, qd, seen).Success? ==> ResolvedKey(QuestionAt(i, qd, seen).value, i) == DocKey(i, qd)
  {
    if qd.JObj? {
      var f := qd.fields;
      var o := OptionsOf(i, f);
      var n := OptionCount(o);
      QuestionAtStages(i, f, seen);
      BuildQuestionSuccess(QuestionText(i, f), o, AllowFreeform(i, f, n), FreeformLabel(i, f),
                           MultiSelect(i, f, n), Key(i, f, seen));
      TextChecked(i, f);
      OptionsChecked(i, f);
      AllowChecked(i, f, n);
      LabelChecked(i, f);
      MultiChecked(i, f, n);
      KeyChecked(i, f, seen);
    }
  }

  /** The question loop from `i` on succeeds when the check accepts entry `k`
      as soon as `keys[k]` is not reserved, resolving it to `keys[k]`, no
      `keys[k]` is reserved yet and no two of them are equal. */
  lemma {:induction false} QuestionsFromAccepted(check: QuestionCheck, data: seq<J>, keys: seq<string>, i: nat, seen: set<string>)
    requires |keys| == |data| && i <= |data|
    requires forall k, s :: i <= k < |data| && keys[k] !in s ==>
      check(k, data[k], s).Success? && ResolvedKey(check(k, data[k], s).value, k) == keys[k]
    requires forall k :: i <= k < |data| ==> keys[k] !in seen
    requires forall a, b :: i <= a < b < |data| ==> keys[a] != keys[b]
    ensures QuestionsFrom(check, data, i, seen).Success?
    decreases |data| - i
  {
    if i < |data| {
      QuestionsFromAccepted(check, data, keys, i + 1, seen + {keys[i]});
    }
  }

  /** What `parse_spec` asks of a whole document: an object with a `questions`
      list of at most 100 entries, each meeting the question rules, whose
      resolved keys are pairwise distinct. */
  predicate AcceptableDoc(doc: J) {
    && doc.JObj? && "questions" in doc.fields && doc.fields["questions"].JArr?
    && var data := doc.fields["questions"].items;
    && |data| <= MaxQuestions
    && (forall k :: 0 <= k < |data| ==> AcceptableFields(data[k]))
    && (forall a, b :: 0 <= a < b < |data| ==> DocKey(a, data[a]) != DocKey(b, data[b]))
  }

  /** Entry `k` of a validated list meets the rules and resolves to the key of its question. */
  lemma ValidatedEntryAcceptable(data: seq<J>, k: nat)
    requires k < |data|
    requires QuestionsFrom(QuestionAt, data, 0, {}).Success?
    ensures k < |QuestionsFrom(QuestionAt, data, 0, {}).value|
    ensures AcceptableFields(data[k])
    ensures DocKey(k, data[k]) == ResolvedKey(QuestionsFrom(QuestionAt, data, 0, {}).value[k], k)
  {
    var r := QuestionsFrom(QuestionAt, data, 0, {}).value;
    QuestionsFromAt(QuestionAt, data, 0, {}, k);
    QuestionAccepted(k, data[k], {} + KeySet(r[..k], 0));
  }

  /** A list of entries that validates meets the rules entry by entry, with
      pairwise distinct resolved keys. */
  lemma ValidatedListAcceptable(data: seq<J>)
    requires QuestionsFrom(QuestionAt, data, 0, {}).Success?
    ensures forall k :: 0 <= k < |data| ==> AcceptableFields(data[k])
    ensures forall a, b :: 0 <= a < b < |data| ==> DocKey(a, data[a]) != DocKey(b, data[b])
  {
    var r := QuestionsFrom(QuestionAt, data, 0, {}).value;
    forall k | 0 <= k < |data|
      ensures k < |r| && AcceptableFields(data[k]) && DocKey(k, data[k]) == ResolvedKey(r[k], k)
    {
      ValidatedEntryAcceptable(data, k);
    }
    ValidatedKeysDistinct(data);
  }

  /** Entries that each meet the rules and resolve to pairwise distinct keys validate as a list. */
  lemma AcceptableListValidates(data: seq<J>)
    requires forall k :: 0 <= k < |data| ==> AcceptableFields(data[k])
    requires forall a, b :: 0 <= a < b < |data| ==> DocKey(a, data[a]) != DocKey(b, data[b])
    ensures QuestionsFrom(QuestionAt, data, 0, {}).Success?
  {
    var keys := seq(|data|, k requires 0 <= k < |data| => DocKey(k, data[k]));
    forall k, s | 0 <= k < |data| && keys[k] !in s
      ensures QuestionAt(k, data[k], s).Success? && ResolvedKey(QuestionAt(k, data[k], s).value, k) == keys[k]
    {
      QuestionAccepted(k, data[k], s);
    }
    QuestionsFromAccepted(QuestionAt, data, keys, 0, {});
  }

  /** `parse_spec` accepts a document exactly when the document meets the
      rules: every well-formed document with distinct keys validates, and only
      those do. */
  lemma ParsedAccepts(doc: J)
    ensures Parsed(doc).Success? <==> AcceptableDoc(doc)
  {
    if doc.JObj? && "questions" in doc.fields && doc.fields["questions"].JArr?
       && |Items(doc)| <= MaxQuestions {
      var data := Items(doc);
      assert Parsed(doc) == QuestionsFrom(QuestionAt, data, 0, {});
      if Parsed(doc).Success? {
        ValidatedListAcceptable(data);
      }
      if AcceptableDoc(doc) {
        AcceptableListValidates(data);
      }
    }
  }
}
