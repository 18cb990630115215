# TaskWave task store and view projection, in Dafny

TaskWave is a browser to-do list. Its one piece of logic is in `js/tasks.js`.
That file keeps an ordered list of tasks (newest added first) in module state,
together with two selectors: the active filter and the active sort. Four
operations edit the list in place: add, update, toggle-complete and delete.
After each edit that changes something, the whole list is written to one
local-storage slot. The list shown to the user is computed from the list and
the two selectors: a filter by completion status, then a stable sort under one
of four comparators. A completed count and a completion percentage are shown
beside it.

The model has five modules:

- `TaskData` (task.dfy): the task record, String.prototype.trim, due-date
  normalisation, the record `addTask` builds, and the two demo tasks.
- `TaskList` (task_list.dfy): the list edits as functions of the old list
  (find the first task with an id, then update, toggle or delete it), with
  their frame, involution and idempotence lemmas.
- `TaskSort` (sort.dfy): the comparator of `sortTasks` and the stable sort.
  The sort is proved to be a permutation, ordered, stable and idempotent. It
  is also proved to be the only result that is both stable and ordered, so it
  agrees with any conforming Array.prototype.sort.
- `TaskView` (view.dfy): `filterTasks`, the completed count, the completion
  percentage, and the filter-then-sort projection.
- `TaskStore` (store.dfy): class `Store`, holding the module state `tasks`,
  `currentFilter` and `currentSort` and the storage slot `stored`. Its methods
  are the source's mutating operations. Each states its new list outright:
  - `UpdateTask`, `ToggleTaskComplete` and `DeleteTask` via the `TaskList`
    functions `UpdateById`, `ToggleById` and `DeleteById`;
  - `AddTask` as `NewTask(...)` prepended to the old list;
  - `LoadTasks` as the slot's list, or `SeedTasks(now)` when the slot is
    absent.

  After `SaveTasks`, `LoadTasks` and `AddTask` the slot holds the list. After
  an update, toggle or delete it holds the list when the id was found, and is
  untouched otherwise.

  `WellFormed` means unique ids and non-blank titles. The methods keep it as
  follows:
  - `ToggleTaskComplete` and `DeleteTask` always;
  - `UpdateTask` when the new title is not blank;
  - `AddTask` when the new id is not yet in the list and the title is not
    blank;
  - `HandleTaskSubmit` whenever it adds with an id not yet in the list, since
    its title is trimmed and non-empty.

  `LoadTasks` establishes it only when it seeds the demo tasks. A list read
  from the slot is taken as it is.

Inputs that come from the browser are parameters:

- the clock (`now`);
- the id `Date.now().toString()` gives a new task (`freshId`);
- the instant `new Date(dueDate)` parses a due-date value to (`dueStamp`);
- the answer to the delete confirmation (`confirmed`).

Timestamps, which the source keeps as ISO-8601 strings, are integers of
milliseconds. An empty due date is `None`.

Some behaviour of js/tasks.js worth knowing:

- An update, toggle or delete naming an unknown id does nothing and reports
  nothing (js/tasks.js:424, 443, 460).
- Loading has no fallback for an unreadable payload: `JSON.parse` of the
  slot is used as is (js/tasks.js:54-56).
- No operation returns a result. `HandleTaskSubmit` returns which route it
  took; that stands for the toast or modal-close that follows it
  (js/tasks.js:386-399).
- Deleting is idempotent only while ids are unique. `findIndex` finds the
  first match, and ids are not guaranteed unique: two adds in the same
  millisecond get the same id (js/tasks.js:405, 458-461).
  `TaskList.DeleteTwiceWithDuplicateId` shows the difference.

## Model

| member | source | states |
|---|---|---|
| TaskData.IsWhiteSpace | js/tasks.js:381 | the characters trim removes: among ASCII exactly TAB, LF, VT, FF, CR and space; never a digit or a Latin letter |
| TaskData.LeadingWhiteSpace | js/tasks.js:381 | the length of the leading white-space run: every character before it is white space, and the one at it, if any, is not |
| TaskData.TrailingWhiteSpace | js/tasks.js:381 | the length of the trailing white-space run: every character after it is white space, and the one before it, if any, is not |
| TaskData.Trim | js/tasks.js:381-382 | a trimmed string is empty or starts and ends with a character that is not white space |
| TaskData.TrimIsInfix | js/tasks.js:381-382 | trim keeps one contiguous piece of the input and removes only white space before and after it |
| TaskData.TrimIsSlice | js/tasks.js:381 | the trimmed string is the slice of the input that starts right after the leading white space |
| TaskData.TrimDropsWhiteSpace | js/tasks.js:381 | everything after that slice is white space |
| TaskData.TrimEmptyIff | js/tasks.js:381-389 | a title trims to '' exactly when every character is white space (the submit handler's `if (!title)` check) |
| TaskData.TrimIdempotent | js/tasks.js:381 | trimming twice gives the same result as trimming once |
| TaskData.NormalizeDue | js/tasks.js:408 | the stored due date is absent exactly when the form value is '', and is otherwise the parsed instant |
| TaskData.NewTask | js/tasks.js:404-412 | a new task is not completed, is created at the current instant, carries the given id, title, description and importance, and has no due date exactly when the due input is empty |
| TaskData.SeedTasks | js/tasks.js:58-78 | the two demo tasks have ids "1" and "2" and non-blank titles; the first is open and created now, the second completed and created exactly one day earlier; neither has a due date or is important |
| TaskList.FindIndex | js/tasks.js:422 | `findIndex`: -1 exactly when no task has the id, otherwise the index of the first task with it |
| TaskList.Edited | js/tasks.js:425-431 | the spread record takes the four form fields and keeps the task's id, createdAt and completed |
| TaskList.UpdateById | js/tasks.js:422-431 | the length and the ids stay; for a present id, only the first matching entry changes, and it becomes its Edited form; an unknown id changes nothing |
| TaskList.ToggleById | js/tasks.js:441-444 | the length and the ids stay; for a present id, the first matching entry has only `completed` negated and every other entry stays; an unknown id changes nothing |
| TaskList.ToggleTwice | js/tasks.js:440-444 | toggling the same id twice restores the original list |
| TaskList.DeleteById | js/tasks.js:458-461 | for a present id, exactly the first matching entry is removed: the length drops by one, the entries before and after it keep their order, and the multiset loses that one task; an unknown id changes nothing |
| TaskList.RemoveAt | js/tasks.js:461 | `splice(i, 1)` drops the entry at i, keeps the entries before it and shifts the later ones down by one |
| TaskList.DeleteRemovesId | js/tasks.js:458-461 | with unique ids, after deletion no task has the deleted id and ids stay unique |
| TaskList.DeleteTwice | js/tasks.js:455-461 | with unique ids, deleting twice has the effect of deleting once |
| TaskList.DeleteTwiceWithDuplicateId | js/tasks.js:405 | when two tasks share an id, a second delete removes the second task, so deletion is not idempotent |
| TaskList.EditsKeepUniqueIds | js/tasks.js:425-431 | update and toggle keep ids unique |
| TaskList.PrependKeepsUniqueIds | js/tasks.js:414 | prepending a task whose id is not in the list keeps ids unique |
| TaskSort.SortKeyOf | js/tasks.js:259-274 | each of the four case labels selects its own comparator, and any other selector value selects the default branch |
| TaskSort.LexCompare | js/tasks.js:268 | the title comparison returns -1, 0 or 1, and returns 0 exactly for equal titles |
| TaskSort.LexCompareMeaning | js/tasks.js:268 | the title comparison is at most 0 exactly when the first title is a prefix of the second, or is smaller at the first position where they differ |
| TaskSort.Compare | js/tasks.js:258-276 | the comparator is at most 0 exactly when a may stand before b: (date-created) a is not older; (due-date) b has no due date, or both have one and a's is not later; (alphabetical) a's title is lexicographically at most b's; (priority) a is important and b is not, or both are in the same tier and a is not newer; (any other selector) always |
| TaskSort.CompareFlip | js/tasks.js:257-277 | swapping the comparator's arguments negates the sign of its result, for every selector |
| TaskSort.LeTransitive | js/tasks.js:257-277 | "may stand before" is transitive for every selector, so the comparator is a consistent total preorder |
| TaskSort.Insert | js/tasks.js:258 | inserting into a sorted list adds exactly the new task and leaves the list sorted |
| TaskSort.SortTasks | js/tasks.js:257-277 | the sorted copy is a permutation of the input and is ordered by the comparator |
| TaskSort.SortStable | js/tasks.js:258 | tasks the comparator ties keep their relative input order |
| TaskSort.SortUnique | js/tasks.js:258 | any ordered list that keeps every group of tied tasks in input order equals the sort's result, so the result does not depend on the sorting algorithm |
| TaskSort.SortSortedIsIdentity | js/tasks.js:258 | sorting a list that is already ordered returns it unchanged |
| TaskSort.SortIdempotent | js/tasks.js:258 | sorting a sorted result again returns the same order |
| TaskSort.UnsortedKeepsOrder | js/tasks.js:273-274 | under an unknown selector the comparator is always 0, so the order is unchanged |
| TaskSort.SortMeaning | js/tasks.js:259-272 | every pair in the sorted result, not only neighbours, stands in the order its selector promises |
| TaskSort.PriorityScenario | js/tasks.js:260-272 | for A (not important, older) and B (important, newer), 'priority' and 'date-created' list B first and 'alphabetical' lists A first |
| TaskView.FilterKindOf | js/tasks.js:246-253 | 'active' and 'completed' select their own filters, and every other value shows all tasks |
| TaskView.FilterTasks | js/tasks.js:245-254 | the filtered list is an order-preserving subsequence, and holds each task exactly as often as the list does when the filter shows it, and not at all otherwise |
| TaskView.WithStatus | js/tasks.js:248-250 | the filtered list keeps exactly the tasks with the wanted status, each as often as in the input |
| TaskView.WithStatusIsSubsequence | js/tasks.js:248-250 | filtering keeps the relative order of the tasks it keeps |
| TaskView.FilterPartition | js/tasks.js:245-254 | every filter returns an order-preserving subsequence; 'active' holds only open tasks and 'completed' only completed ones; together they hold every task once, so their lengths sum to the list's; the default filter returns the list |
| TaskView.CompletedCount | js/tasks.js:306-308 | the completed count is at most the number of tasks |
| TaskView.CompletedCountZero | js/tasks.js:306-308 | the count is 0 exactly when no task is completed |
| TaskView.CompletedCountFull | js/tasks.js:306-308 | the count equals the list's length exactly when every task is completed |
| TaskView.RoundedPercent | js/tasks.js:312 | the result p is 100c/n rounded half up, that is 2n·p <= 200c + n < 2n·(p + 1); it is at most 100, it is 0 when c = 0, and it is 100 when c = n |
| TaskView.RoundHalfUp | js/tasks.js:312 | floor((200c + n) / 2n) rounds 100c/n half up and lies in [0, 100], with 0 for c = 0 and 100 for c = n |
| TaskView.CompletionPercentage | js/tasks.js:311-313 | the percentage lies in [0, 100] and is 0 for an empty list |
| TaskView.PercentageEndpoints | js/tasks.js:311-313 | the percentage is 0 when no task is completed, 100 when a non-empty list is all completed, and 50 for one of two |
| TaskView.PercentageMonotonic | js/tasks.js:312 | for lists of the same length, more completed tasks never give a lower percentage |
| TaskView.Project | js/tasks.js:167-168 | the drawn list is ordered by the selected comparator and is a permutation of the filtered list: each task appears as often as in the store when the filter shows it, and not at all otherwise |
| TaskView.ProjectPartition | js/tasks.js:167-168 | under any sort, the 'completed' view shows only completed tasks and the 'active' view only open ones; their sizes add up to the 'all' view's size, and the 'all' view holds every task |
| TaskStore.Store.constructor | js/tasks.js:6-8 | the list starts empty, the filter at 'all' and the sort at 'date-created'; the storage slot holds whatever earlier sessions left |
| TaskStore.Store.SaveTasks | js/tasks.js:84-87 | the storage slot afterwards holds exactly the list |
| TaskStore.Store.LoadTasks | js/tasks.js:51-81 | a present slot's list becomes the list as it is; an absent slot yields the two demo tasks, which are saved at once and have unique ids and non-blank titles; either way slot and list agree afterwards |
| TaskStore.Store.AddTask | js/tasks.js:403-418 | the new task is prepended before the old tasks, which follow in their order unchanged; the list is saved; with a fresh id and a non-blank title, ids stay unique and titles non-blank |
| TaskStore.Store.UpdateTask | js/tasks.js:421-437 | the list becomes the update of the first entry with the id; the slot is rewritten exactly when the id was present; with a non-blank title, unique ids and non-blank titles are kept |
| TaskStore.Store.ToggleTaskComplete | js/tasks.js:440-452 | the list becomes the toggle of the first entry with the id; the slot is rewritten exactly when the id was present; unique ids and non-blank titles are kept |
| TaskStore.Store.DeleteTask | js/tasks.js:455-466 | when confirmed, the list becomes its DeleteById and the slot is rewritten exactly when the id was present; when declined, neither list nor slot changes; unique ids and non-blank titles are kept |
| TaskStore.Store.HandleTaskSubmit | js/tasks.js:377-400 | a title that is blank after trimming is refused with nothing changed; otherwise a non-empty hidden id routes the trimmed fields to the update, and an empty one to the add; the refusal happens exactly when every title character is white space; an add with an id not yet in the list, or any update, keeps ids unique and titles non-blank |
| TaskStore.Store.SelectFilter | js/tasks.js:30-36 | a filter button sets the filter selector to its value |
| TaskStore.Store.SelectSort | js/tasks.js:38-44 | a sort button sets the sort selector to its value |
| TaskStore.Store.VisibleTasks | js/tasks.js:163-168 | the list renderTaskList draws from the store's state is ordered by the current sort and is a permutation of the current filter's result: a task the filter shows appears as often as in the store, any other not at all |

## Left out

- Rendering: `renderDashboard`, `renderTaskList`'s markup, `createTaskElement`, `updateTaskFilters`, `updateTaskSorts` and `openTaskModal`. They only build markup and toggle classes.
- Event wiring in `initTasks` other than the two selector assignments. The model's methods are the handlers' effects.
- Toasts, the gsap modal animations and the re-render after each edit. They are UI side effects.
- The `confirm()` prompt of `deleteTask`. Its answer is the `confirmed` parameter.
- `Date.now()`, `new Date()` and the date parser. They are the parameters `freshId`, `now` and `dueStamp`.
- A malformed due-date value, on which `toISOString` throws. The date input of the form does not produce one.
- The overdue check against the clock and `toLocaleDateString`. Both are display-only.
- TaskSort.LexCompare: orders titles by code point, as a stand-in for the locale-aware `localeCompare`. The locale's collation is not available. Titles that differ only in case or accents can therefore sort differently in a browser.
- TaskView.RoundedPercent: computes `Math.round((c / n) * 100)` on exact rationals as floor((200c + n) / 2n). Floating-point division can land just below a half and round down, so the source can give one less at exact half-way quotients. The endpoints 0, 50 and 100 and the bound [0, 100] are the same in both.
- JSON serialisation and `localStorage`. The slot is modelled as the list last saved, and the JSON round trip as exact. A corrupt payload makes `JSON.parse` throw in the source, which has no fallback. Clearing the slot on logout lives in js/auth.js, which is not part of this model.
- Object identity. Task records are shared objects in the source: the filtered and sorted arrays are copies of the array, not of the tasks. The model treats tasks as values. This is observable only through aliasing, and the view is recomputed after every edit.
- js/auth.js, js/ui.js, js/theme.js and js/3d-background.js. They are mock authentication, animation and theme plumbing.
