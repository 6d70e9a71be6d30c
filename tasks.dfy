/** The task record and the helpers of the to-do list that look at one task:
    priority weights, the overdue test, tag parsing, and the patch an edit applies. */
module Tasks {

  import opened Optional
  import opened JsStrings
  import opened JsValues
  import opened JsArrays

  /** One to-do item. `id` keeps whatever truthy value an import supplied; tasks created
      in the application get a string id. Instants are epoch milliseconds. */
  datatype Task = Task(
    id: JsValue,
    title: string,
    description: string,
    completed: bool,
    assignee: string,
    priority: string,
    deadline: Option<int>,
    category: string,
    createdAt: int,
    updatedAt: int)

  /** The sort weight of a priority: high 3, medium 2, low 1, anything else 0. */
  function PriorityWeight(p: string): (w: nat)
    ensures w <= 3
    ensures w == 3 <==> p == "high"
    ensures w == 2 <==> p == "medium"
    ensures w == 1 <==> p == "low"
  {
    if p == "high" then 3
    else if p == "medium" then 2
    else if p == "low" then 1
    else 0
  }

  /** The deadline is truthy: present and not 0. */
  predicate HasDeadline(t: Task) {
    t.deadline.Some? && t.deadline.value != 0
  }

  /** An incomplete task whose (truthy) deadline lies strictly before `now`. */
  function IsOverdue(t: Task, now: int): (b: bool)
    ensures t.completed ==> !b
    ensures !t.completed ==> (b <==> HasDeadline(t) && t.deadline.value < now)
  {
    !t.completed && HasDeadline(t) && t.deadline.value < now
  }

  /** Time only makes a task more overdue, until it is completed. */
  lemma OverdueStaysOverdue(t: Task, now: int, later: int)
    requires IsOverdue(t, now) && now <= later
    ensures IsOverdue(t, later)
    ensures !IsOverdue(t.(completed := true), later)
  {
  }

  /** The truthiness of a string, the test of `filter(Boolean)`. */
  predicate NotEmpty(p: string) {
    p != ""
  }

  /** The tags of a category string: split at every `,` and `#` (not at spaces),
      trimmed, empty ones dropped. Every tag is non-empty, already trimmed and free of
      separators. */
  function ParseTags(category: string): (tags: seq<string>)
    ensures category == "" ==> tags == []
    ensures forall k :: 0 <= k < |tags| ==> tags[k] != "" && Trim(tags[k]) == tags[k]
    ensures forall k :: 0 <= k < |tags| ==> SeparatorFree(tags[k])
  {
    if category == "" then []
    else
      var parts := SplitTags(category);
      TrimmedPieces(parts);
      Filter(Map(parts, Trim), NotEmpty)
  }

  /** The trimmed pieces of a split are trimmed and separator-free. */
  lemma TrimmedPieces(parts: seq<string>)
    requires forall k :: 0 <= k < |parts| ==> SeparatorFree(parts[k])
    ensures forall x :: x in Map(parts, Trim) ==> Trim(x) == x && SeparatorFree(x)
  {
    forall k | 0 <= k < |parts|
      ensures Trim(Trim(parts[k])) == Trim(parts[k]) && SeparatorFree(Trim(parts[k]))
    {
      TrimIdempotent(parts[k]);
      TrimSeparatorFree(parts[k]);
    }
  }

  /** Tags keep their input order: the tags on either side of a separator are the tags of
      each side, the left ones first. */
  lemma ParseTagsAppend(a: string, c: char, b: string)
    requires IsTagSeparator(c)
    ensures ParseTags(a + [c] + b) == ParseTags(a) + ParseTags(b)
  {
    SplitTagsAppend(a, c, b);
    MapAppend(SplitTags(a), SplitTags(b), Trim);
    FilterAppend(Map(SplitTags(a), Trim), Map(SplitTags(b), Trim), NotEmpty);
    if a == [] {
      assert Filter(Map(SplitTags(a), Trim), NotEmpty) == [];
    }
    if b == [] {
      assert Filter(Map(SplitTags(b), Trim), NotEmpty) == [];
    }
  }

  /** Without `,` or `#` the whole category is one tag, spaces and all (or none when blank). */
  lemma ParseTagsSingle(s: string)
    requires SeparatorFree(s)
    ensures ParseTags(s) == if Trim(s) == "" then [] else [Trim(s)]
  {
    if s != [] {
      SplitTagsWhole(s);
      var x := Trim(s);
      assert Map([s], Trim) == [x];
      assert [x][1..] == [];
      assert Filter([x], NotEmpty) == if x == "" then [] else [x];
    }
  }

  /** The fields an edit may overwrite (the object spread `{...task, ...patch}`);
      `None` is a field the patch does not carry. */
  datatype Patch = Patch(
    title: Option<string>,
    description: Option<string>,
    completed: Option<bool>,
    assignee: Option<string>,
    priority: Option<string>,
    deadline: Option<Option<int>>,
    category: Option<string>)

  /** The patch `toggleComplete` hands to `updateTask`: only the completed flag. */
  function CompletionPatch(completed: bool): Patch {
    Patch(None, None, Some(completed), None, None, None, None)
  }

  function Override<T>(field: Option<T>, current: T): T {
    if field.Some? then field.value else current
  }

  /** `{ ...t, ...p, updatedAt: now }`: the carried fields overwrite, every other field
      stays, and the update instant becomes `now`. */
  function ApplyPatch(t: Task, p: Patch, now: int): (u: Task)
    ensures u.id == t.id && u.createdAt == t.createdAt && u.updatedAt == now
    ensures u.title == (if p.title.Some? then p.title.value else t.title)
    ensures u.description == (if p.description.Some? then p.description.value else t.description)
    ensures u.completed == (if p.completed.Some? then p.completed.value else t.completed)
    ensures u.assignee == (if p.assignee.Some? then p.assignee.value else t.assignee)
    ensures u.priority == (if p.priority.Some? then p.priority.value else t.priority)
    ensures u.deadline == (if p.deadline.Some? then p.deadline.value else t.deadline)
    ensures u.category == (if p.category.Some? then p.category.value else t.category)
  {
    t.(title := Override(p.title, t.title),
       description := Override(p.description, t.description),
       completed := Override(p.completed, t.completed),
       assignee := Override(p.assignee, t.assignee),
       priority := Override(p.priority, t.priority),
       deadline := Override(p.deadline, t.deadline),
       category := Override(p.category, t.category),
       updatedAt := now)
  }

  /** Toggling changes the completed flag and the update instant, nothing else. */
  lemma CompletionPatchOnlyCompletes(t: Task, completed: bool, now: int)
    ensures ApplyPatch(t, CompletionPatch(completed), now) == t.(completed := completed, updatedAt := now)
  {
  }

  /** The values the task form submits (already trimmed, the date already an instant). */
  datatype TaskInput = TaskInput(
    title: string,
    description: string,
    assignee: string,
    priority: string,
    deadline: Option<int>,
    category: string)

  /** The record `addTask` creates: incomplete, created and updated `now`, priority "low"
      when none was chosen, and no deadline when the date is missing or 0. */
  function NewTask(data: TaskInput, now: int, freshId: string): (t: Task)
    ensures t.id == Str(freshId) && !t.completed
    ensures t.createdAt == now && t.updatedAt == now
    ensures t.title == data.title && t.description == data.description
    ensures t.assignee == data.assignee && t.category == data.category
    ensures t.priority == (if data.priority == "" then "low" else data.priority)
    ensures HasDeadline(t) <==> data.deadline.Some? && data.deadline.value != 0
    ensures HasDeadline(t) ==> t.deadline == data.deadline
    ensures !HasDeadline(t) ==> t.deadline == None
  {
    Task(
      id := Str(freshId),
      title := data.title,
      description := data.description,
      completed := false,
      assignee := data.assignee,
      priority := if data.priority == "" then "low" else data.priority,
      deadline := if data.deadline.Some? && data.deadline.value != 0 then data.deadline else None,
      category := data.category,
      createdAt := now,
      updatedAt := now)
  }

  /** The ids of a list of tasks, in order. */
  function Ids(s: seq<Task>): (ids: seq<JsValue>)
    ensures |ids| == |s| && forall i :: 0 <= i < |s| ==> ids[i] == s[i].id
  {
    seq(|s|, i requires 0 <= i < |s| => s[i].id)
  }

  /** `findIndex(t => t.id === id)`: the first index holding `id`, or -1 when none does. */
  function FindIndex(s: seq<Task>, id: JsValue): (k: int)
    ensures -1 <= k < |s|
    ensures k == -1 <==> id !in Ids(s)
    ensures k >= 0 ==> s[k].id == id && forall i :: 0 <= i < k ==> s[i].id != id
  {
    if s == [] then -1
    else if s[0].id == id then 0
    else
      var k := FindIndex(s[1..], id);
      assert Ids(s) == [s[0].id] + Ids(s[1..]);
      if k == -1 then -1 else k + 1
  }
}
