/** The task store: the one mutable list of tasks and the operations the user's actions
    run on it — add (with the form's title check), edit, toggle, delete, clear the
    completed tasks, and import. `now` stands for `Date.now()` and `freshId` for the
    id `uid()` returns; saving to local storage and redrawing are not modelled. */
module Store {

  import opened Optional
  import opened JsStrings
  import opened JsValues
  import opened Tasks
  import opened Interchange
  import opened JsArrays

  /** The list after `updateTask(id, p)`: the first task with `id` patched, nothing else
      touched; the same list when no task has `id`. */
  function PatchedList(s: seq<Task>, id: JsValue, p: Patch, now: int): (r: seq<Task>)
    ensures |r| == |s| && Ids(r) == Ids(s)
    ensures id !in Ids(s) ==> r == s
    ensures forall j :: 0 <= j < |s| && j != FindIndex(s, id) ==> r[j] == s[j]
    ensures id in Ids(s) ==> r[FindIndex(s, id)] == ApplyPatch(s[FindIndex(s, id)], p, now)
  {
    var k := FindIndex(s, id);
    if k == -1 then s else s[k := ApplyPatch(s[k], p, now)]
  }

  /** An edit never changes an id or a creation instant anywhere in the list. */
  lemma PatchKeepsIdentity(s: seq<Task>, id: JsValue, p: Patch, now: int, j: int)
    requires 0 <= j < |s|
    ensures PatchedList(s, id, p, now)[j].id == s[j].id
    ensures PatchedList(s, id, p, now)[j].createdAt == s[j].createdAt
  {
  }

  /** The form carries the id of the task being edited as text, so an edit from the form
      only ever reaches a task whose id is a string: a task imported with a numeric or
      boolean id keeps every field. */
  lemma FormEditSkipsNonTextIds(s: seq<Task>, editingId: string, p: Patch, now: int)
    ensures forall j :: 0 <= j < |s| && !s[j].id.Str? ==> PatchedList(s, Str(editingId), p, now)[j] == s[j]
  {
    var k := FindIndex(s, Str(editingId));
    assert k != -1 ==> s[k].id == Str(editingId);
  }

  /** The list after `deleteTask(id)`: the first task with `id` spliced out. */
  function RemovedList(s: seq<Task>, id: JsValue): (r: seq<Task>)
    ensures id !in Ids(s) ==> r == s
    ensures id in Ids(s) ==>
      |r| == |s| - 1 && multiset(r) + multiset{s[FindIndex(s, id)]} == multiset(s)
  {
    var k := FindIndex(s, id);
    if k == -1 then s
    else
      assert s == s[..k] + [s[k]] + s[k + 1..];
      s[..k] + s[k + 1..]
  }

  /** Deleting keeps every other task, in order: those before the removed one stay put,
      those after it move up by one. */
  lemma RemovedKeepsOrder(s: seq<Task>, id: JsValue)
    requires id in Ids(s)
    ensures var k := FindIndex(s, id); var r := RemovedList(s, id);
      (forall i :: 0 <= i < k ==> r[i] == s[i])
      && (forall i :: k <= i < |r| ==> r[i] == s[i + 1])
  {
    var k := FindIndex(s, id);
    assert RemovedList(s, id) == s[..k] + s[k + 1..];
    SpliceIndices(s, k);
  }

  lemma SpliceIndices(s: seq<Task>, k: int)
    requires 0 <= k < |s|
    ensures var r := s[..k] + s[k + 1..];
      |r| == |s| - 1
      && (forall i :: 0 <= i < k ==> r[i] == s[i])
      && (forall i :: k <= i < |r| ==> r[i] == s[i + 1])
  {
  }

  /** How many tasks are completed. */
  function CountCompleted(s: seq<Task>): (n: nat)
    ensures n <= |s|
  {
    if s == [] then 0 else (if s[0].completed then 1 else 0) + CountCompleted(s[1..])
  }

  predicate IsActive(t: Task) {
    !t.completed
  }

  /** `tasks.filter(t => !t.completed)`: no completed task is left, and every incomplete
      one stays, in order, as often as it was there. */
  function Incomplete(s: seq<Task>): (r: seq<Task>)
    ensures forall i :: 0 <= i < |r| ==> !r[i].completed
    ensures forall t :: multiset(r)[t] == if t.completed then 0 else multiset(s)[t]
  {
    Filter(s, IsActive)
  }

  /** Clearing shrinks the list by exactly the number of completed tasks. */
  lemma {:induction false} IncompleteCount(s: seq<Task>)
    ensures |Incomplete(s)| == |s| - CountCompleted(s)
  {
    if s != [] {
      IncompleteCount(s[1..]);
      assert s == [s[0]] + s[1..];
    }
  }

  /** Clearing keeps the incomplete tasks in their order. */
  lemma IncompleteAppend(a: seq<Task>, b: seq<Task>)
    ensures Incomplete(a + b) == Incomplete(a) + Incomplete(b)
  {
    FilterAppend(a, b, IsActive);
  }

  /** A list with nothing completed is left as it is. */
  lemma IncompleteOfActive(s: seq<Task>)
    requires forall i :: 0 <= i < |s| ==> !s[i].completed
    ensures Incomplete(s) == s
  {
    FilterAll(s, IsActive);
  }

  /** What the user typed into the task form; `editingId` is the hidden id field, empty
      when a new task is being entered. */
  datatype Form = Form(
    title: string,
    description: string,
    assignee: string,
    priority: string,
    deadline: Option<int>,
    category: string,
    editingId: string)

  /** The payload the submit handler builds: text fields trimmed. */
  function SubmitPayload(f: Form): TaskInput {
    TaskInput(Trim(f.title), Trim(f.description), Trim(f.assignee), f.priority, f.deadline,
              Trim(f.category))
  }

  /** An edit from the form carries every form field. */
  function EditPatch(d: TaskInput): Patch {
    Patch(Some(d.title), Some(d.description), None, Some(d.assignee), Some(d.priority),
          Some(d.deadline), Some(d.category))
  }

  datatype SubmitOutcome = TitleRequired | Added | Edited

  /** The state that `Array.from(map.values())` reads back as `MergeById(done)`:
      `keys` are the map's keys in insertion order, `vals` its entries. */
  ghost predicate MapHolds(keys: seq<JsValue>, vals: map<JsValue, Task>, done: seq<Task>) {
    keys == Dedup(Ids(done)) && DomainHolds(vals, done) && ValuesHold(vals, done)
  }

  ghost predicate DomainHolds(vals: map<JsValue, Task>, done: seq<Task>) {
    forall k :: k in vals <==> k in Ids(done)
  }

  ghost predicate ValuesHold(vals: map<JsValue, Task>, done: seq<Task>) {
    forall k :: k in vals ==> k in Ids(done) && vals[k] == Latest(done, k)
  }

  lemma MapSetStep(keys: seq<JsValue>, vals: map<JsValue, Task>, done: seq<Task>, t: Task)
    requires MapHolds(keys, vals, done)
    ensures MapHolds(if t.id in vals then keys else keys + [t.id], vals[t.id := t], done + [t])
  {
    IdsAppend(done, [t]);
    assert Ids(done + [t]) == Ids(done) + [t.id];
    KeysStep(keys, done, t);
    DomainStep(vals, done, t);
    ValuesStep(vals, done, t);
  }

  lemma KeysStep(keys: seq<JsValue>, done: seq<Task>, t: Task)
    requires keys == Dedup(Ids(done))
    requires Ids(done + [t]) == Ids(done) + [t.id]
    ensures (if t.id in Ids(done) then keys else keys + [t.id]) == Dedup(Ids(done + [t]))
  {
    DedupSnoc(Ids(done), t.id);
  }

  lemma DomainStep(vals: map<JsValue, Task>, done: seq<Task>, t: Task)
    requires DomainHolds(vals, done)
    requires Ids(done + [t]) == Ids(done) + [t.id]
    ensures DomainHolds(vals[t.id := t], done + [t])
  {
  }

  lemma ValuesStep(vals: map<JsValue, Task>, done: seq<Task>, t: Task)
    requires ValuesHold(vals, done)
    requires Ids(done + [t]) == Ids(done) + [t.id]
    ensures ValuesHold(vals[t.id := t], done + [t])
  {
    var vals2 := vals[t.id := t];
    forall k | k in vals2
      ensures k in Ids(done + [t]) && vals2[k] == Latest(done + [t], k)
    {
      LatestAppend(done, [t], k);
    }
  }

  lemma PrefixStep(done: seq<Task>, s: seq<Task>, i: int)
    requires 0 <= i < |s|
    ensures done + s[..i + 1] == (done + s[..i]) + [s[i]]
  {
    assert s[..i + 1] == s[..i] + [s[i]];
  }

  /** `map.set(t.id, t)` for each `t` of `s` in turn: a new id is appended to the key order,
      a known one keeps its place and takes the new record. */
  method SetEach(keys: seq<JsValue>, vals: map<JsValue, Task>, s: seq<Task>, ghost done: seq<Task>)
    returns (keys': seq<JsValue>, vals': map<JsValue, Task>)
    requires MapHolds(keys, vals, done)
    ensures MapHolds(keys', vals', done + s)
  {
    keys', vals' := keys, vals;
    var i := 0;
    assert done + s[..0] == done;
    while i < |s|
      invariant 0 <= i <= |s|
      invariant MapHolds(keys', vals', done + s[..i])
    {
      var t := s[i];
      MapSetStep(keys', vals', done + s[..i], t);
      PrefixStep(done, s, i);
      if t.id !in vals' {
        keys' := keys' + [t.id];
      }
      vals' := vals'[t.id := t];
      i := i + 1;
    }
    assert s[..i] == s;
  }

  class TaskStore {

    /** The tasks, newest first unless an import ordered them otherwise. */
    var tasks: seq<Task>

    /** The store as loaded from local storage. */
    constructor (initial: seq<Task>)
      ensures tasks == initial
    {
      tasks := initial;
    }

    /** `tasks.findIndex(t => t.id === id)`. */
    method IndexOf(id: JsValue) returns (k: int)
      ensures k == FindIndex(tasks, id)
      ensures k == -1 <==> id !in Ids(tasks)
    {
      k := 0;
      while k < |tasks| && tasks[k].id != id
        invariant 0 <= k <= |tasks|
        invariant forall i :: 0 <= i < k ==> tasks[i].id != id
      {
        k := k + 1;
      }
      if k == |tasks| {
        k := -1;
      }
    }

    /** `addTask`: the new task goes in front and every earlier task follows unchanged.
        Its id is new, so distinct ids stay distinct. */
    method AddTask(data: TaskInput, now: int, freshId: string)
      requires Str(freshId) !in Ids(tasks)
      modifies this
      ensures tasks == [NewTask(data, now, freshId)] + old(tasks)
      ensures Distinct(Ids(old(tasks))) ==> Distinct(Ids(tasks))
    {
      var t := NewTask(data, now, freshId);
      tasks := [t] + tasks;
      assert Ids(tasks) == [t.id] + Ids(old(tasks));
    }

    /** The form's submit handler: a blank title is refused and nothing changes;
        otherwise the trimmed fields either edit the task whose id the form holds or
        become a new task. */
    method Submit(form: Form, now: int, freshId: string) returns (outcome: SubmitOutcome)
      requires form.editingId == "" ==> Str(freshId) !in Ids(tasks)
      modifies this
      ensures outcome == TitleRequired <==> AllSpace(form.title)
      ensures outcome == TitleRequired ==> tasks == old(tasks)
      ensures outcome == Added ==>
        form.editingId == ""
        && tasks == [NewTask(SubmitPayload(form), now, freshId)] + old(tasks)
        && tasks[0].title == Trim(form.title) && tasks[0].title != ""
      ensures outcome == Edited ==>
        form.editingId != ""
        && tasks == PatchedList(old(tasks), Str(form.editingId), EditPatch(SubmitPayload(form)), now)
    {
      if Trim(form.title) == "" {
        return TitleRequired;
      }
      var payload := SubmitPayload(form);
      if form.editingId != "" {
        UpdateTask(Str(form.editingId), EditPatch(payload), now);
        outcome := Edited;
      } else {
        AddTask(payload, now, freshId);
        outcome := Added;
      }
    }

    /** `updateTask`: patch the first task with `id`; nothing happens when there is none. */
    method UpdateTask(id: JsValue, p: Patch, now: int)
      modifies this
      ensures tasks == PatchedList(old(tasks), id, p, now)
    {
      var k := IndexOf(id);
      if k == -1 {
        return;
      }
      tasks := tasks[k := ApplyPatch(tasks[k], p, now)];
    }

    /** `toggleComplete`: an update that carries only the completed flag. */
    method ToggleComplete(id: JsValue, completed: bool, now: int)
      modifies this
      ensures tasks == PatchedList(old(tasks), id, CompletionPatch(completed), now)
      ensures id in Ids(old(tasks)) ==>
        var k := FindIndex(old(tasks), id);
        tasks[k] == old(tasks)[k].(completed := completed, updatedAt := now)
    {
      UpdateTask(id, CompletionPatch(completed), now);
      if id in Ids(old(tasks)) {
        CompletionPatchOnlyCompletes(old(tasks)[FindIndex(old(tasks), id)], completed, now);
      }
    }

    /** `deleteTask`, removing at once: the first task with `id` goes, the others stay in
        order; nothing happens when there is none. */
    method DeleteTask(id: JsValue)
      modifies this
      ensures tasks == RemovedList(old(tasks), id)
    {
      var k := IndexOf(id);
      if k == -1 {
        return;
      }
      tasks := tasks[..k] + tasks[k + 1..];
    }

    /** The clear-completed button: drop every completed task and report how many went. */
    method ClearCompleted() returns (removed: int)
      modifies this
      ensures tasks == Incomplete(old(tasks))
      ensures removed == CountCompleted(old(tasks))
    {
      var before := |tasks|;
      IncompleteCount(tasks);
      tasks := Incomplete(tasks);
      removed := before - |tasks|;
    }

    /** `tryImport` on an already decoded payload: anything but an array, or an array with a
        `null` element, is refused and the list stays as it was; otherwise the normalised
        records replace the list, or are merged into it by id through a `Map`. */
    method TryImport(payload: Payload, merge: bool, now: int, freshIds: nat -> string)
      returns (result: ImportResult)
      modifies this
      ensures result == Import(old(tasks), payload, merge, now, freshIds)
      ensures tasks == if result.Imported? then result.tasks else old(tasks)
    {
      if payload.NotAnArray? {
        return Rejected(InvalidFormat);
      }
      var normalized := NormalizeAll(payload.items, now, freshIds);
      if normalized.None? {
        return Rejected(NullRecord);
      }
      if merge {
        var keys, vals := SetEach([], map[], tasks, []);
        assert [] + tasks == tasks;
        keys, vals := SetEach(keys, vals, normalized.value, tasks);
        ghost var all := old(tasks) + normalized.value;
        DedupMember(Ids(all));
        assert forall i :: 0 <= i < |keys| ==> keys[i] in vals;
        tasks := seq(|keys|, i requires 0 <= i < |keys| => vals[keys[i]]);
        assert tasks == MergeById(old(tasks), normalized.value);
      } else {
        tasks := normalized.value;
      }
      result := Imported(tasks);
    }
  }
}
