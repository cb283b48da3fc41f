/** Properties of `ask_questions`: what a checkbox answer keeps, where a
    cancellation leaves the run, and how the answer keys follow the questions. */
module AskProps {
  import opened Wrappers
  import opened Text
  import opened Json
  import opened Questions
  import opened SpecParser
  import opened SpecProps
  import opened Asker

  // ---------------------------------------------------------------- the answers dictionary

  lemma KeysCons(e: Entry, d: seq<Entry>)
    ensures Keys([e] + d) == [e.key] + Keys(d)
  {
  }

  /** Assignment keeps the keys and their order, and a new key goes to the end. */
  lemma {:induction false} InsertKeys(d: seq<Entry>, k: string, v: Answer)
    ensures Keys(Insert(d, k, v)) == if k in Keys(d) then Keys(d) else Keys(d) + [k]
    decreases |d|
  {
    if d != [] {
      assert d == [d[0]] + d[1..];
      KeysCons(d[0], d[1..]);
      if d[0].key == k {
        KeysCons(Entry(k, v), d[1..]);
      } else {
        InsertKeys(d[1..], k, v);
        KeysCons(d[0], Insert(d[1..], k, v));
      }
    }
  }

  /** After `d[k] = v`, `d[k]` is `v` and every other key reads as before. */
  lemma {:induction false} InsertLookup(d: seq<Entry>, k: string, v: Answer, k': string)
    ensures Lookup(Insert(d, k, v), k) == Some(v)
    ensures k' != k ==> Lookup(Insert(d, k, v), k') == Lookup(d, k')
    decreases |d|
  {
    if d != [] && d[0].key != k {
      InsertLookup(d[1..], k, v, k');
      assert ([d[0]] + Insert(d[1..], k, v))[1..] == Insert(d[1..], k, v);
    } else if d != [] {
      assert ([Entry(k, v)] + d[1..])[1..] == d[1..];
    }
  }

  /** Assigning a key the dictionary does not have appends one entry. */
  lemma {:induction false} InsertNew(d: seq<Entry>, k: string, v: Answer)
    requires k !in Keys(d)
    ensures Insert(d, k, v) == d + [Entry(k, v)]
    decreases |d|
  {
    if d != [] {
      assert Keys(d)[0] == d[0].key;
      assert Keys(d[1..]) == Keys(d)[1..];
      InsertNew(d[1..], k, v);
      assert [d[0]] + (d[1..] + [Entry(k, v)]) == d + [Entry(k, v)];
    }
  }

  /** A dictionary never holds a key twice. */
  lemma InsertDistinct(d: seq<Entry>, k: string, v: Answer)
    requires Distinct(Keys(d))
    ensures Distinct(Keys(Insert(d, k, v)))
  {
    InsertKeys(d, k, v);
    if k !in Keys(d) {
      var ks := Keys(d) + [k];
      forall a, b | 0 <= a < b < |ks|
        ensures ks[a] != ks[b]
      {
        if b == |Keys(d)| {
          assert ks[a] == Keys(d)[a];
        }
      }
    }
  }

  // ---------------------------------------------------------------- checkbox selections

  /** The number of freeform markers among `selected`: the text prompts its loop asks. */
  function Markers(selected: seq<MenuEntry>): nat {
    if selected == [] then 0 else (if selected[0].FreeformMarker? then 1 else 0) + Markers(selected[1..])
  }

  /** The `n` prompts from script position `pos` on all get a text. */
  predicate TextsFrom(script: seq<Response>, pos: nat, n: nat) {
    forall m :: pos <= m < pos + n ==> Reply(script, m).Text?
  }

  /** The texts given to the `n` prompts from position `pos` on. */
  function TextsAt(script: seq<Response>, pos: nat, n: nat): seq<string> {
    seq(n, m requires 0 <= m < n => if Reply(script, pos + m).Text? then Reply(script, pos + m).s else [])
  }

  /** What a multi-select answer is meant to hold: the selections in the order
      they came back, each real value as it is and each marker replaced by the
      next of `texts`, with the empty texts left out. */
  function Kept(selected: seq<MenuEntry>, texts: seq<string>): seq<string>
    requires Markers(selected) <= |texts|
  {
    if selected == [] then []
    else match selected[0]
      case Real(v) => [v] + Kept(selected[1..], texts)
      case FreeformMarker => (if texts[0] == [] then [] else [texts[0]]) + Kept(selected[1..], texts[1..])
  }

  /** What the checkbox loop is meant to give from selection `j` on, at script
      position `pos`, with `kept` the values kept so far. */
  function Expected(selected: seq<MenuEntry>, j: nat, script: seq<Response>, pos: nat, kept: seq<string>)
    : Outcome<seq<string>>
    requires j <= |selected|
  {
    var n := Markers(selected[j..]);
    if TextsFrom(script, pos, n) then Answered(kept + Kept(selected[j..], TextsAt(script, pos, n)), pos + n)
    else Cancelled
  }

  lemma ExpectedAtEnd(selected: seq<MenuEntry>, script: seq<Response>, pos: nat, kept: seq<string>)
    ensures Expected(selected, |selected|, script, pos, kept) == Answered(kept, pos)
  {
    assert selected[|selected|..] == [];
    assert kept + [] == kept;
  }

  lemma ExpectedReal(selected: seq<MenuEntry>, j: nat, script: seq<Response>, pos: nat, kept: seq<string>)
    requires j < |selected| && selected[j].Real?
    ensures Expected(selected, j, script, pos, kept)
      == Expected(selected, j + 1, script, pos, kept + [selected[j].value])
  {
    var rest := selected[j..];
    assert rest[0] == selected[j] && rest[1..] == selected[j + 1..];
    var texts := TextsAt(script, pos, Markers(rest));
    assert kept + [selected[j].value] + Kept(selected[j + 1..], texts)
      == kept + ([selected[j].value] + Kept(selected[j + 1..], texts));
  }

  lemma TextsCons(script: seq<Response>, pos: nat, n: nat)
    requires Reply(script, pos).Text?
    ensures TextsAt(script, pos, n + 1) == [Reply(script, pos).s] + TextsAt(script, pos + 1, n)
    ensures TextsFrom(script, pos, n + 1) <==> TextsFrom(script, pos + 1, n)
  {
  }

  lemma ExpectedText(selected: seq<MenuEntry>, j: nat, script: seq<Response>, pos: nat, kept: seq<string>)
    requires j < |selected| && selected[j].FreeformMarker? && Reply(script, pos).Text?
    ensures Expected(selected, j, script, pos, kept)
      == Expected(selected, j + 1, script, pos + 1,
                  if Reply(script, pos).s == [] then kept else kept + [Reply(script, pos).s])
  {
    var rest := selected[j..];
    assert rest[0] == selected[j] && rest[1..] == selected[j + 1..];
    var n := Markers(selected[j + 1..]);
    var s := Reply(script, pos).s;
    TextsCons(script, pos, n);
    var later := TextsAt(script, pos + 1, n);
    assert ([s] + later)[0] == s && ([s] + later)[1..] == later;
    var tail := Kept(selected[j + 1..], later);
    assert Kept(rest, [s] + later) == (if s == [] then [] else [s]) + tail;
    assert (if s == [] then kept else kept + [s]) + tail == kept + ((if s == [] then [] else [s]) + tail);
  }

  lemma ExpectedCancel(selected: seq<MenuEntry>, j: nat, script: seq<Response>, pos: nat, kept: seq<string>)
    requires j < |selected| && selected[j].FreeformMarker? && !Reply(script, pos).Text?
    ensures Expected(selected, j, script, pos, kept) == Cancelled
  {
    var rest := selected[j..];
    assert rest[0] == selected[j];
    assert !TextsFrom(script, pos, Markers(rest));
  }

  lemma {:induction false} CollectFromKept(
    selected: seq<MenuEntry>, j: nat, script: seq<Response>, pos: nat, kept: seq<string>)
    requires j <= |selected|
    ensures CollectFrom(selected, j, script, pos, kept) == Expected(selected, j, script, pos, kept)
    decreases |selected| - j
  {
    if j == |selected| {
      ExpectedAtEnd(selected, script, pos, kept);
    } else if selected[j].Real? {
      CollectFromKept(selected, j + 1, script, pos, kept + [selected[j].value]);
      ExpectedReal(selected, j, script, pos, kept);
    } else if Reply(script, pos).Text? {
      var s := Reply(script, pos).s;
      CollectFromKept(selected, j + 1, script, pos + 1, if s == [] then kept else kept + [s]);
      ExpectedText(selected, j, script, pos, kept);
    } else {
      ExpectedCancel(selected, j, script, pos, kept);
    }
  }

  /** The checkbox loop asks one text prompt per marker, in order. It completes
      exactly when each of them gets a text, and then holds the selections in
      their order with every marker replaced by its text and the empty texts
      left out. */
  lemma CollectKeeps(selected: seq<MenuEntry>, script: seq<Response>, pos: nat)
    ensures Collect(selected, script, pos).Answered? <==> TextsFrom(script, pos, Markers(selected))
    ensures Collect(selected, script, pos).Answered? ==>
      Collect(selected, script, pos) ==
        Answered(Kept(selected, TextsAt(script, pos, Markers(selected))), pos + Markers(selected))
  {
    assert selected[0..] == selected;
    CollectFromKept(selected, 0, script, pos, []);
    assert [] + Kept(selected, TextsAt(script, pos, Markers(selected)))
      == Kept(selected, TextsAt(script, pos, Markers(selected)));
  }

  /** Without empty option values, a multi-select answer holds no empty string:
      an empty text is never kept. */
  lemma {:induction false} KeptNonEmpty(selected: seq<MenuEntry>, texts: seq<string>)
    requires Markers(selected) <= |texts|
    requires forall m :: 0 <= m < |selected| && selected[m].Real? ==> selected[m].value != []
    ensures forall m :: 0 <= m < |Kept(selected, texts)| ==> Kept(selected, texts)[m] != []
  {
    if selected != [] {
      assert forall m :: 0 <= m < |selected[1..]| ==> selected[1..][m] == selected[m + 1];
      match selected[0]
      case Real(v) =>
        KeptNonEmpty(selected[1..], texts);
      case FreeformMarker =>
        KeptNonEmpty(selected[1..], texts[1..]);
    }
  }

  // ---------------------------------------------------------------- prefixes of the question list

  /** The run after the first `k` questions. */
  function Before(qs: seq<Question>, script: seq<Response>, k: nat): Run
    requires k <= |qs|
  {
    Ask(qs[..k], script)
  }

  lemma {:induction false} AskFromPrefix(
    qs: seq<Question>, k: nat, i: nat, script: seq<Response>, pos: nat, answers: seq<Entry>)
    requires i <= k <= |qs|
    ensures AskFrom(qs[..k], i, script, pos, answers).cancelled ==>
      AskFrom(qs, i, script, pos, answers) == AskFrom(qs[..k], i, script, pos, answers)
    ensures !AskFrom(qs[..k], i, script, pos, answers).cancelled ==>
      AskFrom(qs, i, script, pos, answers) ==
        AskFrom(qs, k, script, AskFrom(qs[..k], i, script, pos, answers).pos,
                AskFrom(qs[..k], i, script, pos, answers).answers)
    decreases k - i
  {
    if i < k {
      assert qs[..k][i] == qs[i];
      match AskOne(qs[i], script, pos)
      case Cancelled =>
      case Answered(a, next) =>
        AskFromPrefix(qs, k, i + 1, script, next, Record(answers, AskKey(qs[i], i), a));
    }
  }

  /** One more question: the run on the first `k + 1` questions is the run on the
      first `k` followed by asking question `k`, and once cancelled a run stays
      as it is. */
  lemma AskStep(qs: seq<Question>, script: seq<Response>, k: nat)
    requires k < |qs|
    ensures Before(qs, script, k).cancelled ==> Before(qs, script, k + 1) == Before(qs, script, k)
    ensures !Before(qs, script, k).cancelled ==>
      Before(qs, script, k + 1) ==
        match AskOne(qs[k], script, Before(qs, script, k).pos)
        case Cancelled => Run(Before(qs, script, k).answers, Before(qs, script, k).pos, true)
        case Answered(a, next) => Run(Record(Before(qs, script, k).answers, AskKey(qs[k], k), a), next, false)
  {
    var p := qs[..k + 1];
    assert p[..k] == qs[..k];
    assert p[k] == qs[k];
    AskFromPrefix(p, k, 0, script, 0, []);
  }

  lemma AskWhole(qs: seq<Question>, script: seq<Response>)
    ensures Before(qs, script, |qs|) == Ask(qs, script)
  {
    assert qs[..|qs|] == qs;
  }

  /** Cancelling at question `k` ends the run on everything answered before it:
      the answers for questions `0..k-1`, flagged as cancelled. */
  lemma CancelledAt(qs: seq<Question>, script: seq<Response>, k: nat)
    requires k < |qs|
    requires !Before(qs, script, k).cancelled
    requires AskOne(qs[k], script, Before(qs, script, k).pos).Cancelled?
    ensures Ask(qs, script) == Run(Before(qs, script, k).answers, Before(qs, script, k).pos, true)
  {
    AskFromPrefix(qs, k, 0, script, 0, []);
  }

  /** A cancelled run was cancelled at some question `k` that the run reached, and
      returns exactly what it had after the questions before `k`. */
  lemma CancelPoint(qs: seq<Question>, script: seq<Response>) returns (k: nat)
    requires Ask(qs, script).cancelled
    ensures k < |qs| && !Before(qs, script, k).cancelled
    ensures AskOne(qs[k], script, Before(qs, script, k).pos).Cancelled?
    ensures Ask(qs, script).answers == Before(qs, script, k).answers
  {
    assert qs[..0] == [];
    k := 0;
    while AskOne(qs[k], script, Before(qs, script, k).pos).Answered?
      invariant k < |qs| && !Before(qs, script, k).cancelled
      invariant AskFrom(qs, k, script, Before(qs, script, k).pos, Before(qs, script, k).answers) == Ask(qs, script)
      decreases |qs| - k
    {
      AskStep(qs, script, k);
      k := k + 1;
      if k == |qs| {
        AskWhole(qs, script);
        assert false;
      }
    }
  }

  /** The run is flagged as cancelled exactly when some prompt the run reaches
      is cancelled. */
  lemma CancelledIff(qs: seq<Question>, script: seq<Response>)
    ensures Ask(qs, script).cancelled <==>
      exists k :: 0 <= k < |qs| && !Before(qs, script, k).cancelled &&
        AskOne(qs[k], script, Before(qs, script, k).pos).Cancelled?
  {
    if Ask(qs, script).cancelled {
      var k := CancelPoint(qs, script);
    }
    if exists k :: 0 <= k < |qs| && !Before(qs, script, k).cancelled &&
        AskOne(qs[k], script, Before(qs, script, k).pos).Cancelled? {
      var k :| 0 <= k < |qs| && !Before(qs, script, k).cancelled &&
        AskOne(qs[k], script, Before(qs, script, k).pos).Cancelled?;
      CancelledAt(qs, script, k);
    }
  }

  // ---------------------------------------------------------------- answer keys

  /** Question `k` was reached and stored an answer. */
  predicate RecordedAt(qs: seq<Question>, script: seq<Response>, k: nat)
    requires k < |qs|
  {
    && !Before(qs, script, k).cancelled
    && AskOne(qs[k], script, Before(qs, script, k).pos).Answered?
    && AskOne(qs[k], script, Before(qs, script, k).pos).value.Some?
  }

  /** Entry `e` is the answer question `k` stored, under its key. */
  predicate StoredBy(qs: seq<Question>, script: seq<Response>, k: nat, e: Entry)
    requires k < |qs|
  {
    && RecordedAt(qs, script, k)
    && e == Entry(AskKey(qs[k], k), AskOne(qs[k], script, Before(qs, script, k).pos).value.value)
  }

  /** The questions' ask-time keys are pairwise distinct. */
  predicate DistinctAskKeys(qs: seq<Question>) {
    forall a, b :: 0 <= a < b < |qs| ==> AskKey(qs[a], a) != AskKey(qs[b], b)
  }

  /** The answers never hold a key twice. */
  lemma {:induction false} AskFromDistinct(
    qs: seq<Question>, i: nat, script: seq<Response>, pos: nat, answers: seq<Entry>)
    requires i <= |qs|
    requires Distinct(Keys(answers))
    ensures Distinct(Keys(AskFrom(qs, i, script, pos, answers).answers))
    decreases |qs| - i
  {
    if i < |qs| {
      match AskOne(qs[i], script, pos)
      case Cancelled =>
      case Answered(a, next) =>
        if a.Some? {
          InsertDistinct(answers, AskKey(qs[i], i), a.value);
        }
        AskFromDistinct(qs, i + 1, script, next, Record(answers, AskKey(qs[i], i), a));
    }
  }

  lemma AnswerKeysDistinct(qs: seq<Question>, script: seq<Response>)
    ensures Distinct(Keys(Ask(qs, script).answers))
  {
    AskFromDistinct(qs, 0, script, 0, []);
  }

  /** With distinct keys, the answers are the stored answers in question order:
      entry `m` is what question `idx[m]` stored, the indices increase, and every
      question that stored an answer has its entry. */
  lemma AnswersInOrder(qs: seq<Question>, script: seq<Response>) returns (idx: seq<nat>)
    requires DistinctAskKeys(qs)
    ensures |idx| == |Ask(qs, script).answers|
    ensures forall m :: 0 <= m < |idx| ==> idx[m] < |qs| && StoredBy(qs, script, idx[m], Ask(qs, script).answers[m])
    ensures forall m, n :: 0 <= m < n < |idx| ==> idx[m] < idx[n]
    ensures forall k :: 0 <= k < |qs| && RecordedAt(qs, script, k) ==> k in idx
  {
    assert qs[..0] == [];
    idx := [];
    var k := 0;
    while k < |qs|
      invariant k <= |qs|
      invariant |idx| == |Before(qs, script, k).answers|
      invariant forall m :: 0 <= m < |idx| ==>
        idx[m] < k && StoredBy(qs, script, idx[m], Before(qs, script, k).answers[m])
      invariant forall m, n :: 0 <= m < n < |idx| ==> idx[m] < idx[n]
      invariant forall k' :: 0 <= k' < k && RecordedAt(qs, script, k') ==> k' in idx
    {
      AskStep(qs, script, k);
      idx := Extend(qs, script, k, idx);
      k := k + 1;
    }
    AskWhole(qs, script);
  }

  /** One pass of the loop in `AnswersInOrder`. */
  lemma Extend(qs: seq<Question>, script: seq<Response>, k: nat, idx: seq<nat>) returns (idx': seq<nat>)
    requires k < |qs| && DistinctAskKeys(qs)
    requires |idx| == |Before(qs, script, k).answers|
    requires forall m :: 0 <= m < |idx| ==>
      idx[m] < k && StoredBy(qs, script, idx[m], Before(qs, script, k).answers[m])
    requires forall m, n :: 0 <= m < n < |idx| ==> idx[m] < idx[n]
    requires forall k' :: 0 <= k' < k && RecordedAt(qs, script, k') ==> k' in idx
    ensures |idx'| == |Before(qs, script, k + 1).answers|
    ensures forall m :: 0 <= m < |idx'| ==>
      idx'[m] < k + 1 && StoredBy(qs, script, idx'[m], Before(qs, script, k + 1).answers[m])
    ensures forall m, n :: 0 <= m < n < |idx'| ==> idx'[m] < idx'[n]
    ensures forall k' :: 0 <= k' < k + 1 && RecordedAt(qs, script, k') ==> k' in idx'
  {
    var before := Before(qs, script, k);
    var after := Before(qs, script, k + 1);
    if RecordedAt(qs, script, k) {
      var e := Entry(AskKey(qs[k], k), AskOne(qs[k], script, before.pos).value.value);
      StepRecorded(qs, script, k, idx);
      idx' := idx + [k];
      assert after.answers == before.answers + [e];
      assert StoredBy(qs, script, k, e);
    } else {
      StepUnrecorded(qs, script, k);
      idx' := idx;
    }
  }

  lemma StepRecorded(qs: seq<Question>, script: seq<Response>, k: nat, idx: seq<nat>)
    requires k < |qs| && DistinctAskKeys(qs) && RecordedAt(qs, script, k)
    requires |idx| == |Before(qs, script, k).answers|
    requires forall m :: 0 <= m < |idx| ==>
      idx[m] < k && Before(qs, script, k).answers[m].key == AskKey(qs[idx[m]], idx[m])
    ensures Before(qs, script, k + 1).answers == Before(qs, script, k).answers +
      [Entry(AskKey(qs[k], k), AskOne(qs[k], script, Before(qs, script, k).pos).value.value)]
  {
    AskStep(qs, script, k);
    var before := Before(qs, script, k);
    var key := AskKey(qs[k], k);
    InsertNew(before.answers, key, AskOne(qs[k], script, before.pos).value.value);
  }

  lemma StepUnrecorded(qs: seq<Question>, script: seq<Response>, k: nat)
    requires k < |qs| && !RecordedAt(qs, script, k)
    ensures Before(qs, script, k + 1).answers == Before(qs, script, k).answers
  {
    AskStep(qs, script, k);
  }

  // ---------------------------------------------------------------- validated questions

  /** For a validated question the ask-time key is the key the validator
      reserved: a validated key is never empty. */
  lemma ValidAskKey(q: Question, i: nat)
    requires ValidQuestion(q)
    ensures AskKey(q, i) == ResolvedKey(q, i)
  {
  }

  /** The questions of a document the validator accepts have distinct ask-time keys. */
  lemma ParsedAskKeysDistinct(doc: J)
    requires Parsed(doc).Success?
    ensures DistinctAskKeys(Parsed(doc).value)
  {
    var qs := Parsed(doc).value;
    ParsedSound(doc);
    forall a, b | 0 <= a < b < |qs|
      ensures AskKey(qs[a], a) != AskKey(qs[b], b)
    {
      ValidAskKey(qs[a], a);
      ValidAskKey(qs[b], b);
      assert ResolvedKey(qs[a], 0 + a) != ResolvedKey(qs[b], 0 + b);
    }
  }

  /** A stored answer is a list exactly for a multi-select question that is not
      asked as freeform only; a validated multi-select question has options, so
      there it is a list exactly when the question is multi-select. */
  lemma AnswerShape(q: Question, script: seq<Response>, pos: nat)
    requires AskOne(q, script, pos).Answered? && AskOne(q, script, pos).value.Some?
    ensures AskOne(q, script, pos).value.value.Multiple? <==>
      q.multiSelect && !(|q.options| == 0 && q.allowFreeform)
    ensures ValidQuestion(q) ==> (AskOne(q, script, pos).value.value.Multiple? <==> q.multiSelect)
  {
  }

  /** A select prompt whose reply is an entry of the menu it offered always
      stores an answer: the marker is only offered when freeform is allowed. */
  lemma OfferedPickRecords(q: Question, script: seq<Response>, pos: nat)
    requires !q.multiSelect
    requires Reply(script, pos).Picked? && Reply(script, pos).entry in Choices(q)
    requires AskOne(q, script, pos).Answered?
    ensures AskOne(q, script, pos).value.Some?
  {
    if !q.allowFreeform {
      assert Choices(q) == seq(|q.options|, j requires 0 <= j < |q.options| => Real(q.options[j].value)) + [];
    }
  }

  /** For a document the validator accepts, the answers come in question order,
      each under the key the validator reserved for its question. */
  lemma ParsedAnswersInOrder(doc: J, script: seq<Response>) returns (idx: seq<nat>)
    requires Parsed(doc).Success?
    ensures |idx| == |Ask(Parsed(doc).value, script).answers|
    ensures forall m :: 0 <= m < |idx| ==>
      idx[m] < |Parsed(doc).value| &&
      StoredBy(Parsed(doc).value, script, idx[m], Ask(Parsed(doc).value, script).answers[m]) &&
      Ask(Parsed(doc).value, script).answers[m].key == ResolvedKey(Parsed(doc).value[idx[m]], idx[m])
    ensures forall m, n :: 0 <= m < n < |idx| ==> idx[m] < idx[n]
    ensures forall k :: 0 <= k < |Parsed(doc).value| && RecordedAt(Parsed(doc).value, script, k) ==> k in idx
  {
    var qs := Parsed(doc).value;
    ParsedAskKeysDistinct(doc);
    ParsedSound(doc);
    idx := AnswersInOrder(qs, script);
    forall m | 0 <= m < |idx|
      ensures Ask(qs, script).answers[m].key == ResolvedKey(qs[idx[m]], idx[m])
    {
      ValidAskKey(qs[idx[m]], idx[m]);
    }
  }
}
