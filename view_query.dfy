/** The view query of the to-do list (`getVisibleTasks`): keep the tasks that pass the
    status filter and the free-text search, then stably sort them by the chosen key.
    `lower` stands for `String.prototype.toLowerCase` and `collate` for
    `String.prototype.localeCompare`; both come from the JavaScript engine. */
module ViewQuery {

  import opened JsStrings
  import opened Tasks
  import opened StableSort
  import opened JsArrays

  /** What the user picked: a status filter, a sort key and the search text. */
  datatype ViewState = ViewState(filter: string, sort: string, query: string)

  /** The status filter: "active" drops completed tasks, "completed" drops incomplete
      ones, any other value keeps everything. */
  predicate StatusMatches(filter: string, t: Task) {
    !(filter == "active" && t.completed) && !(filter == "completed" && !t.completed)
  }

  lemma StatusFilterMeaning(t: Task)
    ensures StatusMatches("all", t)
    ensures StatusMatches("active", t) <==> !t.completed
    ensures StatusMatches("completed", t) <==> t.completed
  {
  }

  /** The text searched: title, description, assignee and category joined by spaces. */
  function Haystack(t: Task): string {
    t.title + " " + t.description + " " + t.assignee + " " + t.category
  }

  /** The normalised search text: trimmed, then lower-cased. */
  function Needle(view: ViewState, lower: string -> string): string {
    lower(Trim(view.query))
  }

  /** An empty needle matches everything; otherwise it must occur in the lower-cased
      haystack. */
  predicate SearchMatches(q: string, t: Task, lower: string -> string) {
    q == "" || Includes(lower(Haystack(t)), q)
  }

  predicate Keep(view: ViewState, lower: string -> string, t: Task) {
    StatusMatches(view.filter, t) && SearchMatches(Needle(view, lower), t, lower)
  }

  /** `tasks.filter(...)`: the tasks the view keeps, each as often as in `s`. */
  function FilterTasks(s: seq<Task>, view: ViewState, lower: string -> string): (r: seq<Task>)
    ensures forall t :: multiset(r)[t] == if Keep(view, lower, t) then multiset(s)[t] else 0
  {
    Filter(s, (t: Task) => Keep(view, lower, t))
  }

  /** The filter keeps the relative order of the tasks it keeps. */
  lemma FilterTasksAppend(a: seq<Task>, b: seq<Task>, view: ViewState, lower: string -> string)
    ensures FilterTasks(a + b, view, lower) == FilterTasks(a, view, lower) + FilterTasks(b, view, lower)
  {
    FilterAppend(a, b, (t: Task) => Keep(view, lower, t));
  }

  /** The search is a plain substring test on the joined fields, so a match may run
      across the space between two fields. A blank needle matches every task. */
  lemma SearchIsSubstring(q: string, t: Task, lower: string -> string)
    ensures SearchMatches(q, t, lower) <==> exists i :: OccursAt(lower(Haystack(t)), q, i)
  {
    if q == "" {
      assert OccursAt(lower(Haystack(t)), q, 0);
    }
  }

  /** A query of white space only filters nothing. */
  lemma BlankQueryKeepsAll(view: ViewState, lower: string -> string, t: Task)
    requires lower("") == ""
    requires AllSpace(view.query)
    ensures Keep(view, lower, t) <==> StatusMatches(view.filter, t)
  {
  }

  /** Example: "b c" finds a task titled "ab" described as "cd". */
  lemma SearchSpansFields(t: Task)
    requires t.title == "ab" && t.description == "cd"
    ensures SearchMatches("b c", t, s => s)
  {
    assert OccursAt(Haystack(t), "b c", 1);
  }

  /** `task.deadline || Infinity` minus `other.deadline || Infinity`, by sign; two
      missing deadlines give `NaN`, which the sort reads as 0. */
  function DeadlineAscDiff(a: Task, b: Task): int {
    if HasDeadline(a) && HasDeadline(b) then a.deadline.value - b.deadline.value
    else if HasDeadline(a) then -1
    else if HasDeadline(b) then 1
    else 0
  }

  /** `b.deadline || -Infinity` minus `a.deadline || -Infinity`, by sign. */
  function DeadlineDescDiff(a: Task, b: Task): int {
    if HasDeadline(a) && HasDeadline(b) then b.deadline.value - a.deadline.value
    else if HasDeadline(a) then -1
    else if HasDeadline(b) then 1
    else 0
  }

  /** The eight sort keys of the sort selector, and every other value. */
  datatype SortKey =
    | CreatedAsc | CreatedDesc | DeadlineAsc | DeadlineDesc
    | PriorityDesc | PriorityAsc | AssigneeAsc | AssigneeDesc | UnknownKey

  /** The `switch (viewState.sort)` of the comparator, on the key's text. */
  function SortKeyOf(sort: string): SortKey {
    if sort == "created_asc" then CreatedAsc
    else if sort == "created_desc" then CreatedDesc
    else if sort == "deadline_asc" then DeadlineAsc
    else if sort == "deadline_desc" then DeadlineDesc
    else if sort == "priority_desc" then PriorityDesc
    else if sort == "priority_asc" then PriorityAsc
    else if sort == "assignee_asc" then AssigneeAsc
    else if sort == "assignee_desc" then AssigneeDesc
    else UnknownKey
  }

  predicate IsAssigneeKey(key: SortKey) {
    key == AssigneeAsc || key == AssigneeDesc
  }

  /** The comparator `getVisibleTasks` hands to `sort` for each of the eight keys;
      an unknown key compares everything equal. */
  function Compare(key: SortKey, collate: (string, string) -> int, a: Task, b: Task): int {
    match key
    case CreatedAsc => a.createdAt - b.createdAt
    case CreatedDesc => b.createdAt - a.createdAt
    case DeadlineAsc => DeadlineAscDiff(a, b)
    case DeadlineDesc => DeadlineDescDiff(a, b)
    case PriorityDesc => PriorityWeight(b.priority) - PriorityWeight(a.priority)
    case PriorityAsc => PriorityWeight(a.priority) - PriorityWeight(b.priority)
    case AssigneeAsc => collate(a.assignee, b.assignee)
    case AssigneeDesc => collate(b.assignee, a.assignee)
    case UnknownKey => 0
  }

  function Comparator(key: SortKey, collate: (string, string) -> int): (Task, Task) -> int {
    (a, b) => Compare(key, collate, a, b)
  }

  /** The tasks to show: the kept ones, stably sorted by the view's key. They are the kept
      tasks of `tasks`, each exactly as often; `tasks` itself is left as it is. */
  function GetVisibleTasks(tasks: seq<Task>, view: ViewState, lower: string -> string,
                           collate: (string, string) -> int): (r: seq<Task>)
    ensures forall t :: multiset(r)[t] == if Keep(view, lower, t) then multiset(tasks)[t] else 0
  {
    Sort(FilterTasks(tasks, view, lower), Comparator(SortKeyOf(view.sort), collate))
  }

  lemma CompareAntisymmetric(key: SortKey, collate: (string, string) -> int, a: Task, b: Task)
    requires IsAssigneeKey(key) ==> IsTotalPreorder(collate)
    ensures Compare(key, collate, a, b) < 0 <==> Compare(key, collate, b, a) > 0
  {
  }

  lemma CompareTransitive(key: SortKey, collate: (string, string) -> int, a: Task, b: Task, c: Task)
    requires IsAssigneeKey(key) ==> IsTotalPreorder(collate)
    requires Compare(key, collate, a, b) <= 0 && Compare(key, collate, b, c) <= 0
    ensures Compare(key, collate, a, c) <= 0
  {
  }

  /** Every key gives a consistent comparator, the assignee keys as long as the
      collation is one. */
  lemma ComparatorConsistent(key: SortKey, collate: (string, string) -> int)
    requires IsAssigneeKey(key) ==> IsTotalPreorder(collate)
    ensures IsTotalPreorder(Comparator(key, collate))
  {
    var cmp := Comparator(key, collate);
    forall a, b
      ensures cmp(a, b) < 0 <==> cmp(b, a) > 0
    {
      CompareAntisymmetric(key, collate, a, b);
    }
    forall a, b, c | cmp(a, b) <= 0 && cmp(b, c) <= 0
      ensures cmp(a, c) <= 0
    {
      CompareTransitive(key, collate, a, b, c);
    }
  }

  /** The visible tasks are ordered by the view's key. */
  lemma VisibleSorted(tasks: seq<Task>, view: ViewState, lower: string -> string,
                      collate: (string, string) -> int)
    requires IsAssigneeKey(SortKeyOf(view.sort)) ==> IsTotalPreorder(collate)
    ensures Sorted(GetVisibleTasks(tasks, view, lower, collate), Comparator(SortKeyOf(view.sort), collate))
  {
    ComparatorConsistent(SortKeyOf(view.sort), collate);
    SortSorted(FilterTasks(tasks, view, lower), Comparator(SortKeyOf(view.sort), collate));
  }

  /** Tasks with equal keys appear in the order they have in `tasks`. */
  lemma VisibleStable(tasks: seq<Task>, view: ViewState, lower: string -> string,
                      collate: (string, string) -> int, x: Task)
    requires IsAssigneeKey(SortKeyOf(view.sort)) ==> IsTotalPreorder(collate)
    ensures Alike(GetVisibleTasks(tasks, view, lower, collate), x, Comparator(SortKeyOf(view.sort), collate))
         == Alike(FilterTasks(tasks, view, lower), x, Comparator(SortKeyOf(view.sort), collate))
  {
    ComparatorConsistent(SortKeyOf(view.sort), collate);
    SortStable(FilterTasks(tasks, view, lower), x, Comparator(SortKeyOf(view.sort), collate));
  }

  /** Both deadline sorts put every task without a (truthy) deadline after every task
      with one; the dated ones go earliest first, or latest first. */
  lemma DeadlinesFirst(tasks: seq<Task>, view: ViewState, lower: string -> string,
                       collate: (string, string) -> int, i: int, j: int)
    requires SortKeyOf(view.sort) == DeadlineAsc || SortKeyOf(view.sort) == DeadlineDesc
    requires 0 <= i < j < |GetVisibleTasks(tasks, view, lower, collate)|
    ensures var r := GetVisibleTasks(tasks, view, lower, collate);
      (HasDeadline(r[j]) ==> HasDeadline(r[i]))
      && (HasDeadline(r[i]) && HasDeadline(r[j]) ==>
            if SortKeyOf(view.sort) == DeadlineAsc then r[i].deadline.value <= r[j].deadline.value
            else r[i].deadline.value >= r[j].deadline.value)
  {
    var r := GetVisibleTasks(tasks, view, lower, collate);
    assert !IsAssigneeKey(SortKeyOf(view.sort));
    SortedPair(tasks, view, lower, collate, i, j);
    DeadlinePair(SortKeyOf(view.sort), collate, r[i], r[j]);
  }

  lemma DeadlinePair(key: SortKey, collate: (string, string) -> int, a: Task, b: Task)
    requires key == DeadlineAsc || key == DeadlineDesc
    requires Compare(key, collate, a, b) <= 0
    ensures HasDeadline(b) ==> HasDeadline(a)
    ensures HasDeadline(a) && HasDeadline(b) ==>
      if key == DeadlineAsc then a.deadline.value <= b.deadline.value
      else a.deadline.value >= b.deadline.value
  {
  }

  /** Two visible tasks in order compare `<= 0` under the view's key. */
  lemma SortedPair(tasks: seq<Task>, view: ViewState, lower: string -> string,
                   collate: (string, string) -> int, i: int, j: int)
    requires IsAssigneeKey(SortKeyOf(view.sort)) ==> IsTotalPreorder(collate)
    requires 0 <= i < j < |GetVisibleTasks(tasks, view, lower, collate)|
    ensures var r := GetVisibleTasks(tasks, view, lower, collate);
      Compare(SortKeyOf(view.sort), collate, r[i], r[j]) <= 0
  {
    VisibleSorted(tasks, view, lower, collate);
    var r := GetVisibleTasks(tasks, view, lower, collate);
    assert Comparator(SortKeyOf(view.sort), collate)(r[i], r[j]) <= 0;
  }

  /** "priority_desc" shows high before medium before low before anything else. */
  lemma PriorityDescending(tasks: seq<Task>, view: ViewState, lower: string -> string,
                           collate: (string, string) -> int, i: int, j: int)
    requires SortKeyOf(view.sort) == PriorityDesc
    requires 0 <= i < j < |GetVisibleTasks(tasks, view, lower, collate)|
    ensures var r := GetVisibleTasks(tasks, view, lower, collate);
      PriorityWeight(r[i].priority) >= PriorityWeight(r[j].priority)
  {
    var r := GetVisibleTasks(tasks, view, lower, collate);
    assert !IsAssigneeKey(SortKeyOf(view.sort));
    SortedPair(tasks, view, lower, collate, i, j);
    PriorityPair(SortKeyOf(view.sort), collate, r[i], r[j]);
  }

  lemma PriorityPair(key: SortKey, collate: (string, string) -> int, a: Task, b: Task)
    requires key == PriorityDesc
    requires Compare(key, collate, a, b) <= 0
    ensures PriorityWeight(a.priority) >= PriorityWeight(b.priority)
  {
  }

  /** An unknown sort key leaves the filtered tasks in their stored order. */
  lemma UnknownKeyKeepsOrder(tasks: seq<Task>, view: ViewState, lower: string -> string,
                             collate: (string, string) -> int)
    requires SortKeyOf(view.sort) == UnknownKey
    ensures GetVisibleTasks(tasks, view, lower, collate) == FilterTasks(tasks, view, lower)
  {
    SortOfSorted(FilterTasks(tasks, view, lower), Comparator(SortKeyOf(view.sort), collate));
  }
}
