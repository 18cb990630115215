/**
 * The module state of tasks.js (the list `tasks` and the selectors
 * `currentFilter` and `currentSort`) and the storage slot 'guestTasks',
 * with the operations that change them.  Every operation that changes the
 * list rewrites the whole slot (saveTasks); one that finds no task changes
 * neither.
 */
module TaskStore {
  import opened TaskData
  import opened TaskList
  import opened TaskSort
  import opened TaskView

  /** What handleTaskSubmit did: refused a blank title, or passed the form to updateTask or addTask. */
  datatype SubmitOutcome = TitleRequired | RoutedToUpdate | RoutedToAdd

  /** A title the submit handler accepts: something other than white space. */
  predicate HasText(s: string) {
    !AllWhiteSpace(s)
  }

  class Store {
    var tasks: seq<Task>
    var currentFilter: string
    var currentSort: string
    /** The storage slot: None while absent, else the list last saved (JSON round trip taken as exact). */
    var stored: Option<seq<Task>>

    /** The slot holds exactly the list in memory. */
    ghost predicate Synced()
      reads this
    {
      stored == Some(tasks)
    }

    /** Ids are unique and every title has text: what adding through the form keeps. */
    ghost predicate WellFormed()
      reads this
    {
      UniqueIds(tasks) && forall k :: 0 <= k < |tasks| ==> HasText(tasks[k].title)
    }

    /** The module's initial state, over a storage slot left by earlier sessions. */
    constructor (storage: Option<seq<Task>>)
      ensures tasks == [] && stored == storage
      ensures currentFilter == "all" && currentSort == "date-created"
    {
      tasks := [];
      currentFilter := "all";
      currentSort := "date-created";
      stored := storage;
    }

    /** saveTasks: the slot is overwritten with the whole list. */
    method SaveTasks()
      modifies this`stored
      ensures Synced()
    {
      stored := Some(tasks);
    }

    /** loadTasks: the saved list if the slot holds one, otherwise the two demo tasks, saved at once. */
    method LoadTasks(now: int)
      modifies this`tasks, this`stored
      ensures old(stored).Some? ==> tasks == old(stored).value
      ensures old(stored).None? ==> tasks == SeedTasks(now) && WellFormed()
      ensures Synced()
    {
      if stored.Some? {
        tasks := stored.value;
      } else {
        tasks := SeedTasks(now);
        SaveTasks();
      }
    }

    /** addTask: the new task goes in front; the list is saved. */
    method AddTask(title: string, description: string, dueInput: string, dueStamp: int,
                   important: bool, freshId: string, now: int)
      modifies this`tasks, this`stored
      ensures tasks == [NewTask(freshId, title, description, dueInput, dueStamp, important, now)] + old(tasks)
      ensures Synced()
      ensures old(WellFormed()) && !HasId(old(tasks), freshId) && HasText(title) ==> WellFormed()
    {
      var t := NewTask(freshId, title, description, dueInput, dueStamp, important, now);
      if UniqueIds(tasks) && !HasId(tasks, freshId) {
        PrependKeepsUniqueIds(t, tasks);
      }
      tasks := [t] + tasks;
      SaveTasks();
    }

    /** updateTask: the first task with the id takes the new fields and the list is saved; else nothing happens. */
    method UpdateTask(id: string, title: string, description: string, dueInput: string,
                      dueStamp: int, important: bool)
      modifies this`tasks, this`stored
      ensures tasks == UpdateById(old(tasks), id, title, description, NormalizeDue(dueInput, dueStamp), important)
      ensures stored == if HasId(old(tasks), id) then Some(tasks) else old(stored)
      ensures old(WellFormed()) && HasText(title) ==> WellFormed()
    {
      var i := FindIndex(tasks, id);
      if UniqueIds(tasks) {
        EditsKeepUniqueIds(tasks, id, title, description, NormalizeDue(dueInput, dueStamp), important);
      }
      if i != -1 {
        tasks := tasks[i := Edited(tasks[i], title, description, NormalizeDue(dueInput, dueStamp), important)];
        SaveTasks();
      }
    }

    /** toggleTaskComplete: the first task with the id flips `completed` and the list is saved; else nothing happens. */
    method ToggleTaskComplete(id: string)
      modifies this`tasks, this`stored
      ensures tasks == ToggleById(old(tasks), id)
      ensures stored == if HasId(old(tasks), id) then Some(tasks) else old(stored)
      ensures old(WellFormed()) ==> WellFormed()
    {
      var i := FindIndex(tasks, id);
      if UniqueIds(tasks) {
        EditsKeepUniqueIds(tasks, id, "", "", None, false);
      }
      if i != -1 {
        tasks := tasks[i := tasks[i].(completed := !tasks[i].completed)];
        SaveTasks();
      }
    }

    /**
     * deleteTask: when the user confirms and the id is present, its first
     * task is spliced out and the list is saved; else nothing happens.
     */
    method DeleteTask(id: string, confirmed: bool)
      modifies this`tasks, this`stored
      ensures tasks == if confirmed then DeleteById(old(tasks), id) else old(tasks)
      ensures stored == if confirmed && HasId(old(tasks), id) then Some(tasks) else old(stored)
      ensures old(WellFormed()) ==> WellFormed()
    {
      if !confirmed {
        return;
      }
      var i := FindIndex(tasks, id);
      if UniqueIds(tasks) {
        DeleteRemovesId(tasks, id);
      }
      if i != -1 {
        tasks := RemoveAt(tasks, i);
        SaveTasks();
      }
    }

    /**
     * handleTaskSubmit: the title and description are trimmed; a blank title
     * is refused; otherwise a non-empty hidden id updates that task and an
     * empty one adds a new task.
     */
    method HandleTaskSubmit(taskId: string, titleInput: string, descriptionInput: string,
                            dueInput: string, dueStamp: int, important: bool,
                            freshId: string, now: int)
      returns (outcome: SubmitOutcome)
      modifies this`tasks, this`stored
      ensures var title, description := Trim(titleInput), Trim(descriptionInput);
        if title == "" then
          outcome == TitleRequired && tasks == old(tasks) && stored == old(stored)
        else if taskId != "" then
          && outcome == RoutedToUpdate
          && tasks == UpdateById(old(tasks), taskId, title, description, NormalizeDue(dueInput, dueStamp), important)
          && stored == (if HasId(old(tasks), taskId) then Some(tasks) else old(stored))
        else
          && outcome == RoutedToAdd
          && tasks == [NewTask(freshId, title, description, dueInput, dueStamp, important, now)] + old(tasks)
          && Synced()
      ensures old(WellFormed()) && (taskId == "" ==> !HasId(old(tasks), freshId)) ==> WellFormed()
      ensures outcome == TitleRequired <==> AllWhiteSpace(titleInput)
    {
      var title := Trim(titleInput);
      var description := Trim(descriptionInput);
      TrimEmptyIff(titleInput);
      TrimEmptyIff(title);
      TrimIdempotent(titleInput);
      if title == "" {
        return TitleRequired;
      }
      if taskId != "" {
        UpdateTask(taskId, title, description, dueInput, dueStamp, important);
        outcome := RoutedToUpdate;
      } else {
        AddTask(title, description, dueInput, dueStamp, important, freshId, now);
        outcome := RoutedToAdd;
      }
    }

    /** A filter button: `currentFilter = btn.dataset.filter`. */
    method SelectFilter(name: string)
      modifies this`currentFilter
      ensures currentFilter == name
    {
      currentFilter := name;
    }

    /** A sort button: `currentSort = btn.dataset.sort`. */
    method SelectSort(name: string)
      modifies this`currentSort
      ensures currentSort == name
    {
      currentSort := name;
    }

    /**
     * What renderTaskList shows: the store's tasks through the current filter,
     * ordered by the current sort.
     */
    function VisibleTasks(): (r: seq<Task>)
      reads this
      ensures Sorted(SortKeyOf(currentSort), r)
      ensures multiset(r) == multiset(FilterTasks(tasks, FilterKindOf(currentFilter)))
      ensures forall t :: multiset(r)[t] == if Shows(FilterKindOf(currentFilter), t) then multiset(tasks)[t] else 0
    {
      Project(tasks, currentFilter, currentSort)
    }
  }
}
