/** `ask_questions`: put each validated question to the user in turn and collect
    the answers. The interactive prompt library is replaced by a script: the
    replies its prompts would return, in the order they are asked. */
module Asker {
  import opened Wrappers
  import opened Questions

  /** An entry of a menu: an option's value, or the marker that stands behind the
      freeform entry (`_FREEFORM_SENTINEL`). */
  datatype MenuEntry = Real(value: string) | FreeformMarker

  /** What one prompt returns. `Cancel` stands for a prompt that returns `None`
      as well as for Ctrl+C and end of input, which the source treats alike. */
  datatype Response =
    | Cancel
    | Text(s: string)
    | Picked(entry: MenuEntry)
    | PickedMany(entries: seq<MenuEntry>)

  /** A recorded answer: a string, or the list a multi-select question produces. */
  datatype Answer = Single(value: string) | Multiple(values: seq<string>)

  /** One key of the answers dictionary with its value. */
  datatype Entry = Entry(key: string, answer: Answer)

  /** The reply the prompt library gives to the prompt at position `pos`. A reply
      past the end of the script is end of input. */
  function Reply(script: seq<Response>, pos: nat): Response {
    if pos < |script| then script[pos] else Cancel
  }

  /** The menu a select or checkbox prompt offers for `q`: its option values in
      order, then the freeform entry when freeform is allowed. */
  function Choices(q: Question): seq<MenuEntry> {
    seq(|q.options|, j requires 0 <= j < |q.options| => Real(q.options[j].value))
      + (if q.allowFreeform then [FreeformMarker] else [])
  }

  /** The key a question's answer is stored under: `q.key if q.key else
      f"question_{i}"`, so an empty key counts as none. */
  function AskKey(q: Question, i: nat): string {
    if q.key.Some? && q.key.value != [] then q.key.value else DefaultKey(i)
  }

  /** The keys of an insertion-ordered dictionary, in order. */
  function Keys(d: seq<Entry>): seq<string> {
    seq(|d|, m requires 0 <= m < |d| => d[m].key)
  }

  /** `d.get(k)`. */
  function Lookup(d: seq<Entry>, k: string): Option<Answer> {
    if d == [] then None else if d[0].key == k then Some(d[0].answer) else Lookup(d[1..], k)
  }

  predicate Distinct<T(==)>(s: seq<T>) {
    forall a, b :: 0 <= a < b < |s| ==> s[a] != s[b]
  }

  /** `d[k] = v` on a Python dictionary: the first entry with key `k` takes the
      new value, or a new entry goes to the end. */
  function Insert(d: seq<Entry>, k: string, v: Answer): seq<Entry> {
    if d == [] then [Entry(k, v)]
    else if d[0].key == k then [Entry(k, v)] + d[1..]
    else [d[0]] + Insert(d[1..], k, v)
  }

  /** Stores an answer when the question produced one. */
  function Record(d: seq<Entry>, k: string, a: Option<Answer>): seq<Entry> {
    if a.Some? then Insert(d, k, a.value) else d
  }

  /** What asking produces: a value and the script position of the next prompt,
      or a cancellation. */
  datatype Outcome<T> = Answered(value: T, next: nat) | Cancelled

  /** The loop over the selections of a checkbox prompt, from selection `j` on,
      with `kept` the values kept so far: a real value is kept, and a marker asks
      for a text, which is kept unless it is empty. */
  function CollectFrom(selected: seq<MenuEntry>, j: nat, script: seq<Response>, pos: nat, kept: seq<string>)
    : Outcome<seq<string>>
    requires j <= |selected|
    decreases |selected| - j
  {
    if j == |selected| then Answered(kept, pos)
    else match selected[j]
      case Real(v) => CollectFrom(selected, j + 1, script, pos, kept + [v])
      case FreeformMarker =>
        match Reply(script, pos)
        case Text(s) => CollectFrom(selected, j + 1, script, pos + 1, if s == [] then kept else kept + [s])
        case _ => Cancelled
  }

  function Collect(selected: seq<MenuEntry>, script: seq<Response>, pos: nat): Outcome<seq<string>> {
    CollectFrom(selected, 0, script, pos, [])
  }

  /** Asking one question from script position `pos`. A question without options
      that allows freeform asks for text directly; a multi-select question shows a
      checkbox; any other a select, followed by a text prompt when the freeform
      entry is picked. A select that returns the marker of a question without
      freeform records nothing. A reply of the wrong kind for its prompt ends the
      run like a cancellation. */
  function AskOne(q: Question, script: seq<Response>, pos: nat): Outcome<Option<Answer>> {
    if |q.options| == 0 && q.allowFreeform then
      match Reply(script, pos)
      case Text(s) => Answered(Some(Single(s)), pos + 1)
      case _ => Cancelled
    else if q.multiSelect then
      match Reply(script, pos)
      case PickedMany(selected) =>
        (match Collect(selected, script, pos + 1)
         case Answered(values, next) => Answered(Some(Multiple(values)), next)
         case Cancelled => Cancelled)
      case _ => Cancelled
    else
      match Reply(script, pos)
      case Picked(Real(v)) => Answered(Some(Single(v)), pos + 1)
      case Picked(FreeformMarker) =>
        if !q.allowFreeform then Answered(None, pos + 1)
        else
          (match Reply(script, pos + 1)
           case Text(s) => Answered(Some(Single(s)), pos + 2)
           case _ => Cancelled)
      case _ => Cancelled
  }

  /** The state of a run: the answers so far, the next script position, and
      whether the user cancelled. */
  datatype Run = Run(answers: seq<Entry>, pos: nat, cancelled: bool)

  /** The question loop from question `i` on. */
  function AskFrom(qs: seq<Question>, i: nat, script: seq<Response>, pos: nat, answers: seq<Entry>): Run
    requires i <= |qs|
    decreases |qs| - i
  {
    if i == |qs| then Run(answers, pos, false)
    else match AskOne(qs[i], script, pos)
      case Cancelled => Run(answers, pos, true)
      case Answered(a, next) => AskFrom(qs, i + 1, script, next, Record(answers, AskKey(qs[i], i), a))
  }

  function Ask(qs: seq<Question>, script: seq<Response>): Run {
    AskFrom(qs, 0, script, 0, [])
  }

  /** The loop over the selections of a checkbox prompt, whose first text prompt
      is at script position `pos`. */
  method CollectSelections(selected: seq<MenuEntry>, script: seq<Response>, pos: nat)
    returns (r: Outcome<seq<string>>)
    ensures r == Collect(selected, script, pos)
  {
    var next := pos;
    var values: seq<string> := [];
    var j := 0;
    while j < |selected|
      invariant j <= |selected|
      invariant Collect(selected, script, pos) == CollectFrom(selected, j, script, next, values)
    {
      if selected[j].FreeformMarker? {
        var text := Reply(script, next);
        if !text.Text? {
          return Cancelled;
        }
        next := next + 1;
        if text.s != [] {
          values := values + [text.s];
        }
      } else {
        values := values + [selected[j].value];
      }
      j := j + 1;
    }
    return Answered(values, next);
  }

  /** `ask_questions`: the answers in the order they were stored, and whether the
      user cancelled. */
  method AskQuestions(qs: seq<Question>, script: seq<Response>) returns (answers: seq<Entry>, cancelled: bool)
    ensures answers == Ask(qs, script).answers
    ensures cancelled == Ask(qs, script).cancelled
  {
    answers := [];
    var pos := 0;
    var i := 0;
    while i < |qs|
      invariant i <= |qs|
      invariant Ask(qs, script) == AskFrom(qs, i, script, pos, answers)
    {
      var q := qs[i];
      var key := AskKey(q, i);
      if |q.options| == 0 && q.allowFreeform {
        var reply := Reply(script, pos);
        if !reply.Text? {
          return answers, true;
        }
        answers := Insert(answers, key, Single(reply.s));
        pos := pos + 1;
      } else if q.multiSelect {
        var reply := Reply(script, pos);
        if !reply.PickedMany? {
          return answers, true;
        }
        var values := CollectSelections(reply.entries, script, pos + 1);
        if values.Cancelled? {
          return answers, true;
        }
        pos := values.next;
        answers := Insert(answers, key, Multiple(values.value));
      } else {
        var reply := Reply(script, pos);
        if !reply.Picked? {
          return answers, true;
        }
        if reply.entry.FreeformMarker? && q.allowFreeform {
          var text := Reply(script, pos + 1);
          if !text.Text? {
            return answers, true;
          }
          answers := Insert(answers, key, Single(text.s));
          pos := pos + 2;
        } else {
          if reply.entry.Real? {
            answers := Insert(answers, key, Single(reply.entry.value));
          }
          pos := pos + 1;
        }
      }
      i := i + 1;
    }
    cancelled := false;
  }
}
