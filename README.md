# To-do list task engine, in Dafny

A model of the task collection engine of a browser to-do list (`app.js`): the one
mutable list of tasks and what the user's actions do to it, and the read-only view
query that turns the list into the tasks shown on screen.

- **Task store** (`store.dfy`, class `Store.TaskStore`): the list is a `seq<Task>`
  field that each operation reassigns.
  - **Add:** the form's submit path, with its blank-title check; the new task goes
    in front.
  - **Edit, toggle and delete:** each acts on the first task with the given id and
    does nothing when there is none.
  - **Clear completed:** drops every completed task and reports the count.
  - **Import:** replaces the list, or merges into it by id through the `Map`
    insertion loop the source runs. The loop is proved against `Interchange.MergeById`.
- **Import normalisation** (`interchange.dfy`): each decoded record is made into a task
  field by field, with JavaScript's truthiness, `String(v)` and `Number(v)`
  (`js_values.dfy`). A merge is specified as "every id in first-occurrence order,
  holding the last record with that id". Export is the list as JSON records.
  Re-importing an export gives the list back when every task survives import
  unchanged (`Interchange.SurvivesImport`): a truthy id, a non-empty title, a priority
  of "high", "medium" or "low", a deadline other than 0, and non-zero creation and
  update instants. A task edited from the form with an unknown priority comes back
  with priority "low".
- **View query** (`view_query.dfy`): `getVisibleTasks` filters by status and by a
  substring search over the joined text fields, then sorts by one of eight keys.
  JavaScript's stable `Array.prototype.sort` is modelled as a stable insertion sort
  (`sorting.dfy`). It is proved to permute its input, to order it by any consistent
  comparator, and to keep tied elements in input order. `Array.prototype.filter`
  and `String.prototype.trim` are in `js_arrays.dfy` and `js_strings.dfy`.
- **One-task helpers** (`tasks.dfy`): `priorityWeight`, `isOverdue`, `parseTags`,
  the object-spread patch of `updateTask`, and the record `addTask` builds.

Some of the browser's behaviour enters as parameters:
- `now` stands for `Date.now()`.
- `freshId`/`freshIds` stand for the ids `uid()` returns. Adding a task requires its
  `freshId` not to be in the list already. The `freshIds` an import hands to records
  without an id carry no such condition, since the source never checks them against
  the list.
- `lower` stands for `toLowerCase` and `collate` for `localeCompare`.

Under both deadline keys, undated tasks come last. For `deadline_desc` the comparator
at app.js:187 subtracts with `-Infinity` standing in for a missing deadline, so an
undated task sorts after every dated one. `ViewQuery.DeadlinesFirst` proves this.

Editing from the form passes the id as text. A task whose id came from an import as a
number therefore cannot be edited from the form, though it can still be toggled and
deleted. `Store.FormEditSkipsNonTextIds` states this.

A replace import does not make ids distinct: two imported records with the same id
stay two tasks. Edit, toggle and delete then reach only the first of them. A later
merge import folds them into one (`Interchange.MergeEntries`).

## Model

| member | source | states |
|---|---|---|
| JsStrings.Trim | app.js:394-406 | the result has no white space at either end; it is empty exactly when the input is all white space |
| JsStrings.TrimIsSlice | app.js:401 | the result is a contiguous slice of the input, with only white space dropped before and after it |
| JsStrings.TrimNoOp | app.js:401 | a string with no white space at either end is left as it is |
| JsStrings.TrimIdempotent | app.js:401 | trimming an already trimmed string changes nothing |
| JsStrings.Includes | app.js:176 | `includes` is true exactly when the needle occurs at some index of the haystack |
| JsStrings.SplitTags | app.js:86 | `split(/[,#]/)` gives one more piece than there are separators, and no piece contains a separator |
| JsStrings.SplitTagsRoundTrip | app.js:86 | re-joining the pieces with the separators that were removed gives back the input |
| JsStrings.SplitTagsAppend | app.js:86 | splitting `a + sep + b` gives the pieces of `a` followed by the pieces of `b` |
| JsStrings.DecimalRoundTrip | app.js:507-510 | `Number(String(i))` is `i` for every integer |
| JsValues.TruthyStringNonEmpty | app.js:502 | `String(v)` of a truthy scalar is never empty, so an imported scalar title is never empty; unlike the form's check at app.js:394, import accepts a title that is only white space |
| JsArrays.Filter | app.js:452 | `filter` keeps exactly the accepted elements, each as often as in the input |
| JsArrays.FilterAppend | app.js:452 | `filter` keeps relative order: it distributes over concatenation |
| JsArrays.FilterAll | app.js:452 | a list the predicate accepts throughout is returned unchanged |
| Tasks.PriorityWeight | app.js:48-55 | high weighs 3, medium 2, low 1, any other value 0 |
| Tasks.IsOverdue | app.js:78-80 | never true for a completed task; for an incomplete task, true exactly when the deadline is truthy and before `now` |
| Tasks.OverdueStaysOverdue | app.js:78-80 | an overdue task stays overdue as time passes, and stops being overdue once completed |
| Tasks.ParseTags | app.js:83-89 | an empty category gives no tags; every tag is non-empty, trimmed and free of `,` and `#` |
| Tasks.ParseTagsAppend | app.js:83-89 | tags keep their input order: the tags of `a + sep + b` are those of `a` then those of `b` |
| Tasks.ParseTagsSingle | app.js:83-89 | text without `,` or `#` is one tag, spaces included, or none when blank: spaces do not split |
| Tasks.ApplyPatch | app.js:321 | fields the patch carries are overwritten, all others kept, `id` and `createdAt` included, and `updatedAt` becomes `now` |
| Tasks.CompletionPatchOnlyCompletes | app.js:348-349 | toggling changes the completed flag and the update instant and nothing else |
| Tasks.NewTask | app.js:297-310 | the new task has the fresh id, is incomplete, and is created and updated `now`; priority defaults to "low", and a missing or zero deadline becomes none |
| Tasks.FindIndex | app.js:319 | `findIndex` returns -1 exactly when no task has the id, and otherwise the first index holding it |
| StableSort.Insert | app.js:182-195 | inserting adds exactly the one element |
| StableSort.Sort | app.js:182-195 | the sorted output is a permutation of the input |
| StableSort.InsertSorted | app.js:182-195 | inserting into an ordered list keeps it ordered under a consistent comparator |
| StableSort.SortSorted | app.js:182-195 | the output is ordered by any consistent comparator |
| StableSort.SortStable | app.js:182-195 | elements the comparator calls equal keep their input order |
| StableSort.SortOfSorted | app.js:182-195 | an already ordered input, such as any input under a comparator that returns 0 for everything, comes back unchanged |
| ViewQuery.StatusFilterMeaning | app.js:165-166 | "all" keeps every task, "active" only incomplete ones, "completed" only completed ones |
| ViewQuery.FilterTasks | app.js:163-179 | the filtered tasks are exactly the kept tasks, each as often as in the list |
| ViewQuery.FilterTasksAppend | app.js:163-179 | the filter keeps the relative order of the tasks it keeps |
| ViewQuery.SearchIsSubstring | app.js:169-177 | a task matches exactly when the needle occurs in the lower-cased joined title, description, assignee and category |
| ViewQuery.BlankQueryKeepsAll | app.js:161-169 | a query of white space only filters nothing beyond the status filter |
| ViewQuery.SearchSpansFields | app.js:170-176 | a match may run across the space between two fields |
| ViewQuery.GetVisibleTasks | app.js:160-197 | the visible tasks are a permutation of the kept tasks |
| ViewQuery.CompareAntisymmetric | app.js:182-194 | each key's comparator has an antisymmetric sign |
| ViewQuery.CompareTransitive | app.js:182-194 | each key's comparator is transitive on `<= 0` |
| ViewQuery.ComparatorConsistent | app.js:182-194 | every sort key gives a consistent comparator; for the assignee keys this holds when the collation is consistent |
| ViewQuery.VisibleSorted | app.js:182-194 | the visible tasks are ordered by the chosen key |
| ViewQuery.VisibleStable | app.js:182-194 | visible tasks with equal keys keep their order in the list |
| ViewQuery.DeadlinesFirst | app.js:186-187 | under both deadline keys, undated tasks come after every dated one; dated tasks are in ascending or descending deadline order |
| ViewQuery.PriorityDescending | app.js:188 | "priority_desc" shows high before medium before low before anything else |
| ViewQuery.UnknownKeyKeepsOrder | app.js:192 | an unknown sort key leaves the filtered tasks in list order |
| Interchange.Normalize | app.js:500-511 | each field is defaulted on its own: a falsy id gets the fresh one, a falsy title becomes "(bez tytułu)", the priority is always one of the three known ones ("low" otherwise), and `completed` is the truthiness of the raw value |
| Interchange.NormalizeNumberTitle | app.js:502-506 | a numeric title is turned into its decimal text; an unknown priority becomes "low" |
| Interchange.NormalizeAll | app.js:500-511 | the array maps record by record to tasks, and it fails exactly when an element is `null` |
| Interchange.Export | app.js:461 | the export holds one record per task, in list order |
| Interchange.NormalizeExported | app.js:500-511 | an exported task that import can read reads back as the same task |
| Interchange.MergeById | app.js:513-517 | the merged ids are those of the existing list, then those of the import, each kept once at its first occurrence |
| Interchange.MergeIdsDistinct | app.js:513-517 | after a merge no two tasks share an id |
| Interchange.MergeKeepsExisting | app.js:513-517 | when the existing ids are distinct, the existing tasks keep their places and order; one whose id is imported is replaced by the last imported record with that id |
| Interchange.MergeEntries | app.js:513-517 | for any lists, repeated ids included, each merged task is the last imported record with its id when the import has one, and otherwise the last existing record with it |
| Interchange.MergeAppendsNew | app.js:513-517 | when the existing ids are distinct, after the existing tasks come the new imported ids, once each, in import order, each holding its last imported record |
| Interchange.MergeSelf | app.js:513-517 | merging a list with distinct ids into itself changes nothing |
| Interchange.Import | app.js:494-520 | a payload that is not an array, or an array with a `null` element, is rejected; otherwise the normalised records replace the list or are merged into it |
| Interchange.ExportImportRoundTrip | app.js:519 | importing the list's own export in replace mode gives the same list, provided every task satisfies `SurvivesImport` (truthy id, non-empty title, known priority, deadline not 0, non-zero instants) |
| Interchange.ExportMergeIdempotent | app.js:513-517 | importing the list's own export in merge mode leaves the list as it was, provided its ids are distinct and every task satisfies `SurvivesImport` |
| Store.PatchedList | app.js:318-322 | an edit keeps the length and all ids; with no task holding the id nothing changes; otherwise only the first match changes, to the patched task |
| Store.PatchKeepsIdentity | app.js:321 | an edit never changes any task's id or creation instant |
| Store.FormEditSkipsNonTextIds | app.js:409-411 | an edit from the form never touches a task whose id is not a string |
| Store.RemovedList | app.js:328-345 | deleting an absent id changes nothing; otherwise the list is one shorter and lacks exactly the one removed task |
| Store.RemovedKeepsOrder | app.js:341 | the tasks before the removed one stay in place, and those after it move up by one |
| Store.Incomplete | app.js:452 | no completed task is left, and every incomplete one stays, as often as it was there |
| Store.IncompleteCount | app.js:451-455 | clearing shrinks the list by exactly the number of completed tasks |
| Store.IncompleteAppend | app.js:452 | clearing keeps the incomplete tasks in their order |
| Store.IncompleteOfActive | app.js:452 | clearing a list with nothing completed leaves it as it is |
| Store.SetEach | app.js:515-516 | each `map.set` appends a new id to the key order, or replaces the entry of a known one in place; the map then holds the merge of everything set so far |
| Store.TaskStore.constructor | app.js:92 | the store starts with the loaded list |
| Store.TaskStore.IndexOf | app.js:319 | the scan returns the first index holding the id, or -1 when there is none |
| Store.TaskStore.AddTask | app.js:297-312 | the new task is put in front and every earlier task follows unchanged; with a fresh id, distinct ids stay distinct |
| Store.TaskStore.Submit | app.js:387-414 | a blank title is refused and nothing changes; otherwise the trimmed fields edit the task the form names, or become a new task with a non-empty trimmed title |
| Store.TaskStore.UpdateTask | app.js:318-325 | the list becomes `PatchedList` of the old list |
| Store.TaskStore.ToggleComplete | app.js:348-351 | only the completed flag and the update instant of the first task with the id change |
| Store.TaskStore.DeleteTask | app.js:328-345 | the list becomes `RemovedList` of the old list |
| Store.TaskStore.ClearCompleted | app.js:450-457 | the list becomes its incomplete tasks, and the reported count is the number of completed tasks |
| Store.TaskStore.TryImport | app.js:494-520 | the result and the new list are those of `Import`; a rejected import leaves the list as it was, and the merge loop builds exactly `MergeById` |

## Left out

- Rendering, the Materialize widgets, `startEdit`, toasts, the form reset and the view-state handlers for filter, sort and search: presentation only, with no effect on the list.
- Persistence (`loadTasks`, `saveTasks`): the model starts from the loaded list and does not write it back.
- `JSON.parse`, `JSON.stringify`, file reading and the download in export: import starts from an already decoded `Payload`, and export ends at decoded records. Text that is not JSON is folded into `NotAnArray`, which gets the same outcome.
- Store.TaskStore.DeleteTask: only the synchronous removal is modelled. The deferred removal after the fade-out animation splices at an index taken before the delay; that is timing, not list logic. The lookup of the task's list element at app.js:331, and the exception its selector throws for an id containing `"`, are not modelled either: there the source removes nothing, while the model removes the task.
- `toDateStamp`, `formatDate` and the seed tasks depend on the local calendar of `Date`. The form's deadline arrives as an instant or none.
- `uid`, `Date.now`, `toLowerCase` and `localeCompare` are parameters. The assignee sort keys are proved ordered only for a `localeCompare` that is a consistent comparator.
- Interchange.Normalize: a `createdAt`/`updatedAt` that `Number` reads as `NaN` is modelled as `now`, whereas the source stores `NaN`. A `NaN` deadline is modelled as no deadline, which is how the source then treats it (falsy in the sort and in `isOverdue`, `null` in the export).
- Interchange.Normalize: `Number(v)` is modelled for decimal integers with an optional sign and surrounding white space. Fractions, exponents, hexadecimal, `Infinity`, floating point and the rounding of large numbers are not modelled.
- Interchange.NormalizeAll: `Date.now()` is read once per import, as `now`, rather than once per record. An array element that is a number, string, boolean or nested array reads as a record with every field absent. Object-valued fields are not represented.
- Interchange.Normalize: a title that is an array is not represented. The source turns it into text with `String`, so a truthy `[]` or `[""]` gives the empty title `""`. The model's promise that an imported title is never empty holds for scalar titles only.
- Interchange.MergeById: merge keys are compared by value. The source's `Map` uses SameValueZero on whatever `id` held, and ids here are scalars, for which the two agree.
