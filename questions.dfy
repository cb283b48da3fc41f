/** The validated records `parse_spec` produces and `ask_questions` consumes,
    the validation limits, and the key a question answers under. */
module Questions {
  import opened Wrappers
  import opened Text

  const DefaultFreeformLabel: string := "Type something."

  const MaxQuestionLength: nat := 500
  const MaxOptionLength: nat := 200
  const MaxQuestions: nat := 100
  const MinMultiselectOptions: nat := 2
  const MaxMultiselectOptions: nat := 15

  /** One answer option: the value shown and returned, and an optional second line. */
  datatype QuestionOption = QuestionOption(value: string, description: string)

  /** A validated question. `text` is the `question` field of the source's
      dataclass; `key` is `None` when the document gave no key. */
  datatype Question = Question(
    text: string,
    options: seq<QuestionOption>,
    allowFreeform: bool,
    key: Option<string>,
    freeformLabel: string,
    multiSelect: bool)

  /** `f"question_{i}"`, the key of a question that has none of its own. */
  function DefaultKey(i: nat): string {
    "question_" + NatToString(i)
  }

  /** A default key is an identifier made of `question_` and the position's digits. */
  lemma DefaultKeyShape(i: nat)
    ensures IsIdentifier(DefaultKey(i))
    ensures |DefaultKey(i)| > 9 && DefaultKey(i)[..9] == "question_"
  {
    assert forall c :: '0' <= c <= '9' ==> IsIdentChar(c);
  }

  /** Two positions never share a default key. */
  lemma DefaultKeyInjective(i: nat, j: nat)
    requires DefaultKey(i) == DefaultKey(j)
    ensures i == j
  {
    assert NatToString(i) == DefaultKey(i)[9..];
    assert NatToString(j) == DefaultKey(j)[9..];
    NatToStringInjective(i, j);
  }

  /** The key the validator reserves for the question at position `i`: its own
      key, or the positional default. */
  function ResolvedKey(q: Question, i: nat): string {
    if q.key.Some? then q.key.value else DefaultKey(i)
  }

  predicate ValidOption(o: QuestionOption) {
    && 1 <= |o.value| <= MaxOptionLength
    && IsStripped(o.value)
  }

  /** Everything `parse_spec` guarantees of one question it returns. */
  predicate ValidQuestion(q: Question) {
    && 1 <= |q.text| <= MaxQuestionLength
    && IsStripped(q.text)
    && (forall j :: 0 <= j < |q.options| ==> ValidOption(q.options[j]))
    && (q.allowFreeform || |q.options| > 0)
    && |q.freeformLabel| >= 1 && IsStripped(q.freeformLabel)
    && (q.multiSelect ==> MinMultiselectOptions <= |q.options| <= MaxMultiselectOptions)
    && (q.key.Some? ==> KeyPatternMatches(q.key.value))
  }

  /** The resolved keys of `qs`, the question at index `m` standing at position `base + m`,
      are pairwise distinct. */
  predicate DistinctResolvedKeys(qs: seq<Question>, base: nat) {
    forall a, b :: 0 <= a < b < |qs| ==> ResolvedKey(qs[a], base + a) != ResolvedKey(qs[b], base + b)
  }

  /** The set of resolved keys of `qs`, the question at index `m` standing at position `base + m`. */
  function KeySet(qs: seq<Question>, base: nat): set<string>
    decreases |qs|
  {
    if qs == [] then {} else {ResolvedKey(qs[0], base)} + KeySet(qs[1..], base + 1)
  }

  /** Every key of `KeySet(qs, base)` is the resolved key of some question of `qs`. */
  lemma {:induction false} KeySetWitness(qs: seq<Question>, base: nat, k: string) returns (m: nat)
    requires k in KeySet(qs, base)
    ensures m < |qs| && k == ResolvedKey(qs[m], base + m)
    decreases |qs|
  {
    if k == ResolvedKey(qs[0], base) {
      m := 0;
    } else {
      var n := KeySetWitness(qs[1..], base + 1, k);
      m := n + 1;
      assert qs[1..][n] == qs[m];
    }
  }

  /** The question at index `m` reserves its resolved key. */
  lemma {:induction false} KeySetHas(qs: seq<Question>, base: nat, m: nat)
    requires m < |qs|
    ensures ResolvedKey(qs[m], base + m) in KeySet(qs, base)
    decreases m
  {
    if m > 0 {
      KeySetHas(qs[1..], base + 1, m - 1);
      assert qs[1..][m - 1] == qs[m];
    }
  }

  lemma {:induction false} KeySetAppend(qs: seq<Question>, q: Question, base: nat)
    ensures KeySet(qs + [q], base) == KeySet(qs, base) + {ResolvedKey(q, base + |qs|)}
    decreases |qs|
  {
    if qs == [] {
      assert [] + [q] == [q];
      assert [q][1..] == [];
    } else {
      assert (qs + [q])[0] == qs[0];
      assert (qs + [q])[1..] == qs[1..] + [q];
      KeySetAppend(qs[1..], q, base + 1);
    }
  }
}
