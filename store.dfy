/** The state of the `App` component and its event handlers, each handler one
    atomic transition of the store. */
module Store {
  import opened Text
  import opened Seqs
  import opened Tasks

  class TaskStore {
    /** The task list in canonical (manual drag) order. */
    var tasks: seq<Task>
    /** The text box: a new task's text, or the new text of the task being edited. */
    var input: string
    /** The task whose text the next submission replaces. */
    var editId: Option<Id>
    var filter: Filter
    /** The search box. */
    var q: string
    /** The index recorded when a drag starts (the `dragSourceIndex` ref). */
    var dragSource: Option<nat>
    var dark: bool

    /** The store's invariant: task ids are unique. */
    ghost predicate Valid()
      reads this
    {
      UniqueIds(tasks)
    }

    /** Mounting: the stored list and theme are read once. `storedTasks` and
        `storedMode` are the stored strings, `parsedTasks` the outcome of
        parsing `storedTasks`. */
    constructor (storedTasks: Option<string>, parsedTasks: Option<seq<Task>>, storedMode: Option<string>)
      ensures tasks == LoadTasks(storedTasks, parsedTasks)
      ensures dark == ThemeFromStorage(storedMode)
      ensures input == "" && editId == None && filter == All && q == "" && dragSource == None
      ensures (parsedTasks.Some? ==> UniqueIds(parsedTasks.value)) ==> Valid()
    {
      tasks := LoadTasks(storedTasks, parsedTasks);
      input := "";
      editId := None;
      filter := All;
      q := "";
      dragSource := None;
      dark := ThemeFromStorage(storedMode);
    }

    /** The tasks shown: the `filtered` view of the current state. Every task
        shown is in the list, passes the filter and matches the search. */
    function Visible(): (r: seq<Task>)
      reads this
      ensures |r| <= |tasks|
      ensures forall k :: 0 <= k < |r| ==> r[k] in tasks && PassesFilter(filter, r[k]) && MatchesQuery(r[k], q)
    {
      Filtered(tasks, filter, q)
    }

    /** Submitting the text box (see `Submit`); `freshId` is the clock reading
        that becomes the id of a new task. */
    method AddOrUpdate(freshId: Id)
      requires freshId !in IdsOf(tasks)
      modifies this
      ensures Form(tasks, input, editId) == Submit(old(tasks), old(input), old(editId), freshId)
      ensures filter == old(filter) && q == old(q) && dragSource == old(dragSource) && dark == old(dark)
      ensures old(Valid()) ==> Valid()
    {
      if UniqueIds(tasks) {
        SubmitKeepsUnique(tasks, input, editId, freshId);
      }
      var next := Submit(tasks, input, editId, freshId);
      tasks, input, editId := next.tasks, next.input, next.editId;
    }

    /** Deleting a task. */
    method Remove(id: Id)
      modifies this
      ensures tasks == Tasks.Remove(old(tasks), id)
      ensures input == old(input) && editId == old(editId) && filter == old(filter)
      ensures q == old(q) && dragSource == old(dragSource) && dark == old(dark)
      ensures old(Valid()) ==> Valid()
    {
      RemoveIsSubsequence(tasks, id);
      if UniqueIds(tasks) {
        SubsequenceKeepsUnique(Tasks.Remove(tasks, id), tasks);
      }
      tasks := Tasks.Remove(tasks, id);
    }

    /** Ticking or unticking a task. */
    method ToggleComplete(id: Id)
      modifies this
      ensures tasks == Toggle(old(tasks), id)
      ensures input == old(input) && editId == old(editId) && filter == old(filter)
      ensures q == old(q) && dragSource == old(dragSource) && dark == old(dark)
      ensures old(Valid()) ==> Valid()
    {
      if UniqueIds(tasks) {
        ToggleKeepsUnique(tasks, id);
      }
      tasks := Toggle(tasks, id);
    }

    /** Starting to edit `task`: its text goes into the text box and its id
        becomes the pending edit. The list itself does not change. */
    method StartEdit(task: Task)
      modifies this
      ensures input == task.text && editId == Some(task.id)
      ensures tasks == old(tasks) && filter == old(filter) && q == old(q)
      ensures dragSource == old(dragSource) && dark == old(dark)
    {
      input := task.text;
      editId := Some(task.id);
    }

    /** Dropping every completed task. */
    method ClearCompleted()
      modifies this
      ensures tasks == Tasks.ClearCompleted(old(tasks))
      ensures input == old(input) && editId == old(editId) && filter == old(filter)
      ensures q == old(q) && dragSource == old(dragSource) && dark == old(dark)
      ensures old(Valid()) ==> Valid()
    {
      ClearCompletedIsSubsequence(tasks);
      if UniqueIds(tasks) {
        SubsequenceKeepsUnique(Tasks.ClearCompleted(tasks), tasks);
      }
      tasks := Tasks.ClearCompleted(tasks);
    }

    /** A drag starts on the row at `index` of the view. */
    method DragStart(index: nat)
      modifies this
      ensures dragSource == Some(index)
      ensures tasks == old(tasks) && input == old(input) && editId == old(editId)
      ensures filter == old(filter) && q == old(q) && dark == old(dark)
    {
      dragSource := Some(index);
    }

    /** A drag ends on the row at `index` of the view. Without a recorded drag,
        or on the row it started from, nothing happens (the recorded index is
        then kept). Otherwise the task at the recorded index of the whole list
        moves to `index` of the whole list and the recorded index is cleared. */
    method Drop(index: nat)
      requires dragSource.Some? && dragSource.value != index ==>
        dragSource.value < |tasks| && index < |tasks|
      modifies this
      ensures old(dragSource) == None || old(dragSource) == Some(index) ==>
        tasks == old(tasks) && dragSource == old(dragSource)
      ensures old(dragSource).Some? && old(dragSource).value != index ==>
        tasks == Moved(old(tasks), old(dragSource).value, index) && dragSource == None
      ensures input == old(input) && editId == old(editId) && filter == old(filter)
      ensures q == old(q) && dark == old(dark)
      ensures old(Valid()) ==> Valid()
    {
      if dragSource == None || dragSource == Some(index) {
        return;
      }
      var src := dragSource.value;
      var prev := tasks;
      var arr := new Task[|prev|](k requires 0 <= k < |prev| => prev[k]);
      assert arr[..] == prev;
      MoveWithin(arr, src, index);
      if UniqueIds(prev) {
        MovedKeepsUnique(prev, src, index);
      }
      tasks := arr[..];
      dragSource := None;
    }

    /** Choosing a filter. */
    method SetFilter(f: Filter)
      modifies this
      ensures filter == f
      ensures tasks == old(tasks) && input == old(input) && editId == old(editId)
      ensures q == old(q) && dragSource == old(dragSource) && dark == old(dark)
    {
      filter := f;
    }

    /** Typing in the search box. */
    method SetQuery(query: string)
      modifies this
      ensures q == query
      ensures tasks == old(tasks) && input == old(input) && editId == old(editId)
      ensures filter == old(filter) && dragSource == old(dragSource) && dark == old(dark)
    {
      q := query;
    }

    /** Typing in the text box. */
    method SetInput(text: string)
      modifies this
      ensures input == text
      ensures tasks == old(tasks) && editId == old(editId) && filter == old(filter)
      ensures q == old(q) && dragSource == old(dragSource) && dark == old(dark)
    {
      input := text;
    }

    /** The theme button. */
    method ToggleTheme()
      modifies this
      ensures dark == !old(dark)
      ensures tasks == old(tasks) && input == old(input) && editId == old(editId)
      ensures filter == old(filter) && q == old(q) && dragSource == old(dragSource)
    {
      dark := !dark;
    }
  }

  /** A usage scenario driven through the handlers: an added task that is
      completed disappears from the "Active" view and is then cleared. */
  method ScenarioComplete(id: Id)
  {
    var store := new TaskStore(None, None, None);
    store.SetInput("Buy milk");
    TrimKeepsTrimmed("Buy milk");
    store.AddOrUpdate(id);
    var t := Task(id, "Buy milk", false);
    assert store.tasks == [t];
    store.ToggleComplete(id);
    var done := t.(completed := true);
    assert store.tasks == [done];
    CompletedTaskGoes(done, store.q);
    store.SetFilter(Active);
    assert store.Visible() == [];
    store.ClearCompleted();
    assert store.tasks == [];
  }

  /** A usage scenario driven through the handlers: two added tasks appear
      newest first, and dragging the first onto the second restores the order
      in which they were added. */
  method ScenarioReorder(id1: Id, id2: Id)
    requires id1 != id2
  {
    var store := new TaskStore(None, None, None);
    store.SetInput("A");
    TrimKeepsTrimmed("A");
    store.AddOrUpdate(id1);
    store.SetInput("B");
    TrimKeepsTrimmed("B");
    store.AddOrUpdate(id2);
    var a, b := Task(id1, "A", false), Task(id2, "B", false);
    assert store.tasks == [b, a];
    store.DragStart(0);
    store.Drop(1);
    assert Delete([b, a], 0) == [a];
    assert store.tasks == [a, b];
  }
}
