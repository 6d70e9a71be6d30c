/** Export and import of the whole task list as a JSON array. The text is taken as
    already decoded: an array of records whose fields are JSON scalars, or anything else.
    Import normalises every record field by field, then either replaces the list or
    merges it into the current one by id, the way a JavaScript `Map` keyed by id does. */
module Interchange {

  import opened Optional
  import opened JsStrings
  import opened JsValues
  import opened Tasks

  /** A decoded record: the ten task fields, each `Undefined` when the record lacks it. */
  datatype RawRecord = RawRecord(
    id: JsValue,
    title: JsValue,
    description: JsValue,
    completed: JsValue,
    assignee: JsValue,
    priority: JsValue,
    deadline: JsValue,
    category: JsValue,
    createdAt: JsValue,
    updatedAt: JsValue)

  /** One element of the imported array. Reading a field of `null` throws; any other
      element that is not an object reads as a record with every field absent. */
  datatype Item = NullItem | Record(fields: RawRecord)

  /** The decoded payload: an array, or anything else (text that is not JSON included). */
  datatype Payload = JsonArray(items: seq<Item>) | NotAnArray

  /** Why an import was refused; the list is then left as it was. */
  datatype ImportError = InvalidFormat | NullRecord

  datatype ImportResult = Imported(tasks: seq<Task>) | Rejected(error: ImportError)

  /** The title given to a record without one. */
  const Untitled: string := "(bez tytułu)"

  predicate IsKnownPriority(p: string) {
    p == "low" || p == "medium" || p == "high"
  }

  /** `String(v || fallback)`. */
  function TextOr(v: JsValue, fallback: string): string {
    if Truthy(v) then ToJsString(v) else fallback
  }

  /** `v ? Number(v) : fallback` for an instant; a value that reads as `NaN` also gives
      the fallback. */
  function InstantOr(v: JsValue, fallback: int): int {
    if Truthy(v) && ToNumber(v).Some? then ToNumber(v).value else fallback
  }

  /** One imported record made into a task, every field defaulted on its own. */
  function Normalize(raw: RawRecord, now: int, freshId: string): (t: Task)
    ensures t.id == (if Truthy(raw.id) then raw.id else Str(freshId))
    ensures t.title != "" && (Truthy(raw.title) ==> t.title == ToJsString(raw.title))
    ensures !Truthy(raw.title) ==> t.title == Untitled
    ensures t.description == TextOr(raw.description, "")
    ensures t.completed == Truthy(raw.completed)
    ensures t.assignee == TextOr(raw.assignee, "")
    ensures IsKnownPriority(t.priority)
    ensures raw.priority.Str? && IsKnownPriority(raw.priority.s) ==> t.priority == raw.priority.s
    ensures !(raw.priority.Str? && IsKnownPriority(raw.priority.s)) ==> t.priority == "low"
    ensures t.deadline == (if Truthy(raw.deadline) then ToNumber(raw.deadline) else None)
    ensures t.category == TextOr(raw.category, "")
    ensures t.createdAt == InstantOr(raw.createdAt, now)
    ensures t.updatedAt == InstantOr(raw.updatedAt, now)
  {
    Task(
      id := if Truthy(raw.id) then raw.id else Str(freshId),
      title := TextOr(raw.title, Untitled),
      description := TextOr(raw.description, ""),
      completed := Truthy(raw.completed),
      assignee := TextOr(raw.assignee, ""),
      priority := if raw.priority.Str? && IsKnownPriority(raw.priority.s) then raw.priority.s else "low",
      deadline := if Truthy(raw.deadline) then ToNumber(raw.deadline) else None,
      category := TextOr(raw.category, ""),
      createdAt := InstantOr(raw.createdAt, now),
      updatedAt := InstantOr(raw.updatedAt, now))
  }

  /** Example: a record `{title: 42, priority: "urgent"}` becomes a task titled "42" with
      priority "low". */
  lemma NormalizeNumberTitle(raw: RawRecord, now: int, freshId: string)
    requires raw.title == Num(42) && raw.priority == Str("urgent")
    ensures Normalize(raw, now, freshId).title == "42"
    ensures Normalize(raw, now, freshId).priority == "low"
  {
    assert NatToDecimal(4) == "4";
    assert NatToDecimal(42) == NatToDecimal(4) + [DigitChar(2)];
  }

  predicate AllRecords(items: seq<Item>) {
    forall i :: 0 <= i < |items| ==> items[i].Record?
  }

  /** `arr.map(...)` over the records; the `i`-th record that lacks an id gets `freshIds(i)`.
      It throws (here `None`) as soon as one element is `null`. */
  function NormalizeAll(items: seq<Item>, now: int, freshIds: nat -> string): (r: Option<seq<Task>>)
    ensures r.Some? <==> AllRecords(items)
    ensures r.Some? ==> |r.value| == |items|
    ensures r.Some? ==> forall i :: 0 <= i < |items| ==> r.value[i] == Normalize(items[i].fields, now, freshIds(i))
  {
    if AllRecords(items) then
      Some(seq(|items|, i requires 0 <= i < |items| => Normalize(items[i].fields, now, freshIds(i))))
    else None
  }

  /** A stored deadline as JSON writes it: a number, or `null`. */
  function DeadlineValue(d: Option<int>): JsValue {
    if d.Some? then Num(d.value) else Null
  }

  /** One task as the exported JSON object. */
  function ExportRecord(t: Task): RawRecord {
    RawRecord(t.id, Str(t.title), Str(t.description), Bool(t.completed), Str(t.assignee),
              Str(t.priority), DeadlineValue(t.deadline), Str(t.category),
              Num(t.createdAt), Num(t.updatedAt))
  }

  /** `JSON.stringify(tasks)`, decoded again: every task in its current order. */
  function Export(tasks: seq<Task>): (items: seq<Item>)
    ensures |items| == |tasks| && AllRecords(items)
    ensures forall i :: 0 <= i < |tasks| ==> items[i] == Record(ExportRecord(tasks[i]))
  {
    seq(|tasks|, i requires 0 <= i < |tasks| => Record(ExportRecord(tasks[i])))
  }

  /** A task that import gives back unchanged: a truthy id, a title, a known priority, and
      no field that import would read as missing. */
  predicate SurvivesImport(t: Task) {
    Truthy(t.id) && t.title != "" && IsKnownPriority(t.priority)
    && t.deadline != Some(0) && t.createdAt != 0 && t.updatedAt != 0
  }

  /** Import reads an exported task back as the same task. */
  lemma NormalizeExported(t: Task, now: int, freshId: string)
    requires SurvivesImport(t)
    ensures Normalize(ExportRecord(t), now, freshId) == t
  {
  }

  /** The ids of a sequence are pairwise different. */
  predicate Distinct(xs: seq<JsValue>) {
    forall i, j :: 0 <= i < j < |xs| ==> xs[i] != xs[j]
  }

  /** The values of `xs` in the order they first occur. */
  function Dedup(xs: seq<JsValue>): seq<JsValue> {
    if xs == [] then []
    else
      var init := xs[..|xs| - 1];
      var last := xs[|xs| - 1];
      assert xs == init + [last];
      if last in init then Dedup(init) else Dedup(init) + [last]
  }

  /** The values of `xs` that `ys` lacks, in order. */
  function Without(xs: seq<JsValue>, ys: seq<JsValue>): seq<JsValue> {
    if xs == [] then []
    else
      var init := xs[..|xs| - 1];
      var last := xs[|xs| - 1];
      assert xs == init + [last];
      Without(init, ys) + if last in ys then [] else [last]
  }

  lemma {:induction false} DedupMember(xs: seq<JsValue>)
    ensures forall x :: x in Dedup(xs) <==> x in xs
  {
    if xs != [] {
      var init := xs[..|xs| - 1];
      assert xs == init + [xs[|xs| - 1]];
      DedupMember(init);
    }
  }

  /** No value occurs twice among the first occurrences. */
  lemma {:induction false} DedupDistinct(xs: seq<JsValue>)
    ensures Distinct(Dedup(xs))
  {
    if xs != [] {
      var init := xs[..|xs| - 1];
      assert xs == init + [xs[|xs| - 1]];
      DedupDistinct(init);
      DedupMember(init);
    }
  }

  lemma {:induction false} DedupOfDistinct(xs: seq<JsValue>)
    requires Distinct(xs)
    ensures Dedup(xs) == xs
  {
    if xs != [] {
      var init := xs[..|xs| - 1];
      assert Distinct(init);
      DedupOfDistinct(init);
      assert xs == init + [xs[|xs| - 1]];
    }
  }

  lemma DedupSnoc(xs: seq<JsValue>, x: JsValue)
    ensures Dedup(xs + [x]) == if x in xs then Dedup(xs) else Dedup(xs) + [x]
  {
    assert (xs + [x])[..|xs|] == xs;
  }

  lemma WithoutSnoc(xs: seq<JsValue>, x: JsValue, ys: seq<JsValue>)
    ensures Without(xs + [x], ys) == Without(xs, ys) + if x in ys then [] else [x]
  {
    assert (xs + [x])[..|xs|] == xs;
  }

  lemma {:induction false} WithoutMember(xs: seq<JsValue>, ys: seq<JsValue>, x: JsValue)
    ensures x in Without(xs, ys) <==> x in xs && x !in ys
  {
    if xs != [] {
      var init := xs[..|xs| - 1];
      assert xs == init + [xs[|xs| - 1]];
      WithoutMember(init, ys, x);
    }
  }

  /** First occurrences of `a + b`: those of `a`, then those of the values `a` lacks. */
  lemma {:induction false} DedupAppend(a: seq<JsValue>, b: seq<JsValue>)
    ensures Dedup(a + b) == Dedup(a) + Dedup(Without(b, a))
  {
    if b == [] {
      assert a + b == a;
    } else {
      var init := b[..|b| - 1];
      var x := b[|b| - 1];
      DedupAppend(a, init);
      DedupAppendStep(a, init, x);
      SplitLast(a, b);
    }
  }

  lemma SplitLast(a: seq<JsValue>, b: seq<JsValue>)
    requires b != []
    ensures b == b[..|b| - 1] + [b[|b| - 1]]
    ensures a + b == (a + b[..|b| - 1]) + [b[|b| - 1]]
  {
    assert b == b[..|b| - 1] + [b[|b| - 1]];
  }

  lemma DedupAppendStep(a: seq<JsValue>, init: seq<JsValue>, x: JsValue)
    requires Dedup(a + init) == Dedup(a) + Dedup(Without(init, a))
    ensures Dedup((a + init) + [x]) == Dedup(a) + Dedup(Without(init + [x], a))
  {
    var ab := a + init;
    var w := Without(init, a);
    DedupSnoc(ab, x);
    WithoutSnoc(init, x, a);
    InConcat(a, init, x);
    if x in a {
      assert Without(init + [x], a) == w;
    } else {
      assert Without(init + [x], a) == w + [x];
      DedupSnoc(w, x);
      WithoutMember(init, a, x);
      if x in init {
        assert Dedup(w + [x]) == Dedup(w);
      } else {
        SnocJoin(Dedup(ab), Dedup(a), Dedup(w), x);
      }
    }
  }

  lemma InConcat(a: seq<JsValue>, b: seq<JsValue>, x: JsValue)
    ensures x in a + b <==> x in a || x in b
  {
  }

  lemma SnocJoin(ab: seq<JsValue>, a: seq<JsValue>, w: seq<JsValue>, x: JsValue)
    requires ab == a + w
    ensures ab + [x] == a + (w + [x])
  {
  }

  /** The record with `id` that comes last in `s`: the one a `Map` keeps. */
  function Latest(s: seq<Task>, id: JsValue): (t: Task)
    requires id in Ids(s)
    ensures t in s && t.id == id
  {
    var init := s[..|s| - 1];
    var last := s[|s| - 1];
    if last.id == id then last
    else
      assert Ids(s) == Ids(init) + [last.id];
      Latest(init, id)
  }

  lemma {:induction false} IdsAppend(a: seq<Task>, b: seq<Task>)
    ensures Ids(a + b) == Ids(a) + Ids(b)
  {
  }

  lemma {:induction false} LatestAppend(a: seq<Task>, b: seq<Task>, id: JsValue)
    requires id in Ids(a + b)
    ensures id in Ids(b) ==> Latest(a + b, id) == Latest(b, id)
    ensures id !in Ids(b) ==> id in Ids(a) && Latest(a + b, id) == Latest(a, id)
  {
    IdsAppend(a, b);
    if b != [] {
      var init := b[..|b| - 1];
      assert (a + b)[..|a + b| - 1] == a + init;
      assert Ids(b) == Ids(init) + [b[|b| - 1].id];
      if b[|b| - 1].id != id {
        IdsAppend(a, init);
        LatestAppend(a, init, id);
      }
    } else {
      assert a + b == a;
    }
  }

  lemma {:induction false} LatestOfDistinct(s: seq<Task>, i: int)
    requires Distinct(Ids(s)) && 0 <= i < |s|
    ensures Latest(s, s[i].id) == s[i]
  {
    var init := s[..|s| - 1];
    if i < |s| - 1 {
      assert Ids(s)[i] == s[i].id;
      assert Distinct(Ids(init));
      assert Ids(init)[i] == s[i].id;
      LatestOfDistinct(init, i);
    }
  }

  /** The list a merge import leaves: every id of `existing` and then of `imported`, in
      the order it first occurs, holding the last record with that id. */
  function MergeById(existing: seq<Task>, imported: seq<Task>): (r: seq<Task>)
    ensures Ids(r) == Dedup(Ids(existing + imported))
  {
    var all := existing + imported;
    var keys := Dedup(Ids(all));
    DedupMember(Ids(all));
    seq(|keys|, i requires 0 <= i < |keys| => Latest(all, keys[i]))
  }

  /** After a merge no two tasks share an id. */
  lemma MergeIdsDistinct(existing: seq<Task>, imported: seq<Task>)
    ensures Distinct(Ids(MergeById(existing, imported)))
  {
    DedupDistinct(Ids(existing + imported));
  }

  /** A merge keeps the existing tasks in place and in order (when their ids are
      distinct); a task whose id is imported is replaced whole by the last imported record
      with that id. */
  lemma MergeKeepsExisting(existing: seq<Task>, imported: seq<Task>)
    requires Distinct(Ids(existing))
    ensures var r := MergeById(existing, imported);
      |r| >= |existing|
      && forall i :: 0 <= i < |existing| ==>
           r[i] == if existing[i].id in Ids(imported) then Latest(imported, existing[i].id) else existing[i]
  {
    var r := MergeById(existing, imported);
    IdsAppend(existing, imported);
    DedupAppend(Ids(existing), Ids(imported));
    DedupOfDistinct(Ids(existing));
    forall i | 0 <= i < |existing|
      ensures r[i] == if existing[i].id in Ids(imported) then Latest(imported, existing[i].id) else existing[i]
    {
      assert Ids(r)[i] == existing[i].id;
      LatestAppend(existing, imported, existing[i].id);
      LatestOfDistinct(existing, i);
    }
  }

  /** After the existing tasks come the imported ids that were new, once each, in the
      order they first occur in the import, each holding its last imported record. */
  lemma MergeAppendsNew(existing: seq<Task>, imported: seq<Task>)
    requires Distinct(Ids(existing))
    ensures var r := MergeById(existing, imported);
      |r| >= |existing|
      && Ids(r[|existing|..]) == Dedup(Without(Ids(imported), Ids(existing)))
      && forall j :: |existing| <= j < |r| ==>
           r[j].id !in Ids(existing) && r[j] == Latest(imported, r[j].id)
  {
    var r := MergeById(existing, imported);
    var n := |existing|;
    IdsAppend(existing, imported);
    DedupAppend(Ids(existing), Ids(imported));
    DedupOfDistinct(Ids(existing));
    var newIds := Dedup(Without(Ids(imported), Ids(existing)));
    assert Ids(r) == Ids(existing) + newIds;
    assert Ids(r[n..]) == newIds;
    DedupMember(Without(Ids(imported), Ids(existing)));
    forall j | n <= j < |r|
      ensures r[j].id !in Ids(existing) && r[j] == Latest(imported, r[j].id)
    {
      var id := r[j].id;
      assert id == newIds[j - n];
      WithoutMember(Ids(imported), Ids(existing), id);
      LatestAppend(existing, imported, id);
    }
  }

  /** For any lists, repeated ids included: each merged task is the last imported record
      with its id when the import has that id, and otherwise the last existing record
      with it. */
  lemma MergeEntries(existing: seq<Task>, imported: seq<Task>)
    ensures var r := MergeById(existing, imported);
      forall i :: 0 <= i < |r| ==>
        if r[i].id in Ids(imported) then r[i] == Latest(imported, r[i].id)
        else r[i].id in Ids(existing) && r[i] == Latest(existing, r[i].id)
  {
    var r := MergeById(existing, imported);
    var keys := Dedup(Ids(existing + imported));
    DedupMember(Ids(existing + imported));
    forall i | 0 <= i < |r|
      ensures if r[i].id in Ids(imported) then r[i] == Latest(imported, r[i].id)
              else r[i].id in Ids(existing) && r[i] == Latest(existing, r[i].id)
    {
      assert keys[i] in keys;
      LatestAppend(existing, imported, keys[i]);
    }
  }

  /** Merging a list with itself changes nothing when its ids are distinct. */
  lemma MergeSelf(tasks: seq<Task>)
    requires Distinct(Ids(tasks))
    ensures MergeById(tasks, tasks) == tasks
  {
    var r := MergeById(tasks, tasks);
    MergeAppendsNew(tasks, tasks);
    MergeKeepsExisting(tasks, tasks);
    var w := Without(Ids(tasks), Ids(tasks));
    if w != [] {
      WithoutMember(Ids(tasks), Ids(tasks), w[0]);
    }
    assert Dedup(w) == [];
    assert |r| == |tasks|;
    forall i | 0 <= i < |tasks|
      ensures r[i] == tasks[i]
    {
      LatestOfDistinct(tasks, i);
    }
  }

  /** What `tryImport` does to the list, given the decoded payload. */
  function Import(existing: seq<Task>, payload: Payload, merge: bool, now: int,
                  freshIds: nat -> string): (r: ImportResult)
    ensures payload.NotAnArray? ==> r == Rejected(InvalidFormat)
    ensures payload.JsonArray? && !AllRecords(payload.items) ==> r == Rejected(NullRecord)
    ensures payload.JsonArray? && AllRecords(payload.items) ==>
      var normalized := NormalizeAll(payload.items, now, freshIds).value;
      r == Imported(if merge then MergeById(existing, normalized) else normalized)
  {
    if payload.NotAnArray? then Rejected(InvalidFormat)
    else
      match NormalizeAll(payload.items, now, freshIds)
      case None => Rejected(NullRecord)
      case Some(normalized) =>
        Imported(if merge then MergeById(existing, normalized) else normalized)
  }

  /** Replacing the list with its own export gives the same list back, as long as every
      task survives import. */
  lemma ExportImportRoundTrip(tasks: seq<Task>, existing: seq<Task>, now: int,
                              freshIds: nat -> string)
    requires forall i :: 0 <= i < |tasks| ==> SurvivesImport(tasks[i])
    ensures Import(existing, JsonArray(Export(tasks)), false, now, freshIds) == Imported(tasks)
  {
    var normalized := NormalizeAll(Export(tasks), now, freshIds).value;
    forall i | 0 <= i < |tasks|
      ensures normalized[i] == tasks[i]
    {
      NormalizeExported(tasks[i], now, freshIds(i));
    }
  }

  /** Importing the list's own export with merge on leaves it as it was. */
  lemma ExportMergeIdempotent(tasks: seq<Task>, now: int, freshIds: nat -> string)
    requires forall i :: 0 <= i < |tasks| ==> SurvivesImport(tasks[i])
    requires Distinct(Ids(tasks))
    ensures Import(tasks, JsonArray(Export(tasks)), true, now, freshIds) == Imported(tasks)
  {
    ExportImportRoundTrip(tasks, tasks, now, freshIds);
    MergeSelf(tasks);
  }
}
