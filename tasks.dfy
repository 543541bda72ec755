/** The task list as a value: the list transformations inside the event
    handlers of the `App` component, the derived `filtered` view, and the
    stored-value rules for the list and the theme. */
module Tasks {
  import opened Text
  import opened Seqs

  /** Task ids are the numbers `Date.now()` returned when the task was added. */
  type Id = int

  datatype Task = Task(id: Id, text: string, completed: bool)

  /** The three values of the filter selector. */
  datatype Filter = All | Active | Completed

  datatype Option<T> = None | Some(value: T)

  function IdsOf(ts: seq<Task>): set<Id>
  {
    set t | t in ts :: t.id
  }

  /** No two tasks of the list share an id. */
  predicate UniqueIds(ts: seq<Task>)
  {
    forall i, j :: 0 <= i < j < |ts| ==> ts[i].id != ts[j].id
  }

  /** `addOrUpdate` tests `editId` for truthiness: both `null` and the id 0
      mean that no edit is pending, every other id that one is. */
  function IsEditing(editId: Option<Id>): (b: bool)
    ensures editId == None ==> !b
    ensures editId == Some(0) ==> !b
    ensures forall id :: editId == Some(id) && id != 0 ==> b
  {
    editId.Some? && editId.value != 0
  }

  /** The part of the state that submitting the text box changes. */
  datatype Form = Form(tasks: seq<Task>, input: string, editId: Option<Id>)

  /** `addOrUpdate`: submitting the text box `input` with the pending edit
      `editId`. Whitespace-only input changes nothing, even while an edit is
      pending. A pending edit renames its task, keeping its id, flag and
      position, and ends. Without one, a new active task with id `freshId` (the
      clock reading) goes to the head of the list. Both clear the text box. */
  function Submit(ts: seq<Task>, input: string, editId: Option<Id>, freshId: Id): (r: Form)
    ensures Trim(input) == [] ==> r == Form(ts, input, editId)
    ensures Trim(input) != [] ==> r.input == []
    ensures Trim(input) != [] && IsEditing(editId) ==>
      && r.editId == None
      && |r.tasks| == |ts|
      && (forall k :: 0 <= k < |ts| ==> r.tasks[k].id == ts[k].id && r.tasks[k].completed == ts[k].completed)
      && (forall k :: 0 <= k < |ts| ==>
            r.tasks[k].text == if ts[k].id == editId.value then Trim(input) else ts[k].text)
    ensures Trim(input) != [] && !IsEditing(editId) ==>
      && r.editId == editId
      && |r.tasks| == |ts| + 1
      && r.tasks[0] == Task(freshId, Trim(input), false)
      && r.tasks[1..] == ts
  {
    var text := Trim(input);
    if text == [] then Form(ts, input, editId)
    else if IsEditing(editId) then Form(Rename(ts, editId.value, text), [], None)
    else Form([Task(freshId, text, false)] + ts, [], editId)
  }

  /** Submitting keeps the ids unique when the clock reading is a fresh id. */
  lemma SubmitKeepsUnique(ts: seq<Task>, input: string, editId: Option<Id>, freshId: Id)
    requires UniqueIds(ts) && freshId !in IdsOf(ts)
    ensures UniqueIds(Submit(ts, input, editId, freshId).tasks)
  {
    var text := Trim(input);
    if text != [] {
      if IsEditing(editId) {
        RenameKeepsIds(ts, editId.value, text);
      } else {
        PrependFreshKeepsUnique(Task(freshId, text, false), ts);
      }
    }
  }

  /** `prev.map(t => t.id === id ? { ...t, text } : t)`. */
  function Rename(ts: seq<Task>, id: Id, text: string): (r: seq<Task>)
    ensures |r| == |ts|
    ensures forall k :: 0 <= k < |ts| ==> r[k].id == ts[k].id && r[k].completed == ts[k].completed
    ensures forall k :: 0 <= k < |ts| ==> r[k].text == if ts[k].id == id then text else ts[k].text
  {
    if ts == [] then []
    else [if ts[0].id == id then ts[0].(text := text) else ts[0]] + Rename(ts[1..], id, text)
  }

  /** Renaming a task that is not in the list changes nothing. */
  lemma RenameAbsent(ts: seq<Task>, id: Id, text: string)
    requires id !in IdsOf(ts)
    ensures Rename(ts, id, text) == ts
  {
    var r := Rename(ts, id, text);
    forall k | 0 <= k < |ts|
      ensures r[k] == ts[k]
    {
      assert ts[k] in ts;
    }
  }

  /** Renaming keeps the ids, so it keeps them unique. */
  lemma RenameKeepsIds(ts: seq<Task>, id: Id, text: string)
    ensures IdsOf(Rename(ts, id, text)) == IdsOf(ts)
    ensures UniqueIds(ts) ==> UniqueIds(Rename(ts, id, text))
  {
    var r := Rename(ts, id, text);
    forall x | x in IdsOf(r)
      ensures x in IdsOf(ts)
    {
      var t :| t in r && t.id == x;
      var k :| 0 <= k < |r| && r[k] == t;
      assert ts[k] in ts;
    }
    forall x | x in IdsOf(ts)
      ensures x in IdsOf(r)
    {
      var t :| t in ts && t.id == x;
      var k :| 0 <= k < |ts| && ts[k] == t;
      assert r[k] in r;
    }
  }

  /** `prev.map(t => t.id === id ? { ...t, completed: !t.completed } : t)`. */
  function Toggle(ts: seq<Task>, id: Id): (r: seq<Task>)
    ensures |r| == |ts|
    ensures forall k :: 0 <= k < |ts| ==> r[k].id == ts[k].id && r[k].text == ts[k].text
    ensures forall k :: 0 <= k < |ts| ==> r[k].completed == (ts[k].completed != (ts[k].id == id))
  {
    if ts == [] then []
    else [if ts[0].id == id then ts[0].(completed := !ts[0].completed) else ts[0]] + Toggle(ts[1..], id)
  }

  /** Toggling the same task twice restores the list. */
  lemma ToggleInvolutive(ts: seq<Task>, id: Id)
    ensures Toggle(Toggle(ts, id), id) == ts
  {
    var r := Toggle(Toggle(ts, id), id);
    forall k | 0 <= k < |ts|
      ensures r[k] == ts[k]
    {
    }
  }

  /** Toggling keeps the ids, so it keeps them unique. */
  lemma ToggleKeepsUnique(ts: seq<Task>, id: Id)
    requires UniqueIds(ts)
    ensures UniqueIds(Toggle(ts, id))
  {
  }

  /** `prev.filter(t => t.id !== id)`: exactly the tasks with another id. */
  function Remove(ts: seq<Task>, id: Id): (r: seq<Task>)
    ensures |r| <= |ts|
    ensures forall t :: multiset(r)[t] == if t.id != id then multiset(ts)[t] else 0
    ensures id !in IdsOf(r)
  {
    SelectCount(ts, (t: Task) => t.id != id);
    Select(ts, (t: Task) => t.id != id)
  }

  /** Removing keeps the other tasks in their original relative order. */
  lemma RemoveIsSubsequence(ts: seq<Task>, id: Id)
    ensures IsSubsequence(Remove(ts, id), ts)
  {
    SelectIsSubsequence(ts, (t: Task) => t.id != id);
  }

  /** Removing the same id twice is removing it once, and removing an absent id changes nothing. */
  lemma RemoveIdempotent(ts: seq<Task>, id: Id)
    ensures Remove(Remove(ts, id), id) == Remove(ts, id)
    ensures id !in IdsOf(ts) ==> Remove(ts, id) == ts
  {
    var r := Remove(ts, id);
    forall k | 0 <= k < |r|
      ensures r[k].id != id
    {
      assert r[k] in r;
    }
    SelectAll(r, (t: Task) => t.id != id);
    if id !in IdsOf(ts) {
      forall k | 0 <= k < |ts|
        ensures ts[k].id != id
      {
        assert ts[k] in ts;
      }
      SelectAll(ts, (t: Task) => t.id != id);
    }
  }

  /** `prev.filter(t => !t.completed)`: exactly the tasks not yet completed. */
  function ClearCompleted(ts: seq<Task>): (r: seq<Task>)
    ensures |r| <= |ts|
    ensures forall k :: 0 <= k < |r| ==> !r[k].completed
    ensures forall t :: multiset(r)[t] == if t.completed then 0 else multiset(ts)[t]
  {
    SelectCount(ts, (t: Task) => !t.completed);
    Select(ts, (t: Task) => !t.completed)
  }

  /** Clearing keeps the remaining tasks in their original relative order. */
  lemma ClearCompletedIsSubsequence(ts: seq<Task>)
    ensures IsSubsequence(ClearCompleted(ts), ts)
  {
    SelectIsSubsequence(ts, (t: Task) => !t.completed);
  }

  /** Clearing twice is clearing once. */
  lemma ClearCompletedIdempotent(ts: seq<Task>)
    ensures ClearCompleted(ClearCompleted(ts)) == ClearCompleted(ts)
  {
    SelectAll(ClearCompleted(ts), (t: Task) => !t.completed);
  }

  /** A new task whose id is fresh keeps the ids unique. */
  lemma PrependFreshKeepsUnique(t: Task, ts: seq<Task>)
    requires t.id !in IdsOf(ts) && UniqueIds(ts)
    ensures UniqueIds([t] + ts)
  {
    var r := [t] + ts;
    forall i, j | 0 <= i < j < |r|
      ensures r[i].id != r[j].id
    {
      assert r[j] == ts[j - 1] && r[j] in ts;
    }
  }

  /** A subsequence of a list with unique ids has unique ids. */
  lemma SubsequenceKeepsUnique(a: seq<Task>, b: seq<Task>)
    requires IsSubsequence(a, b) && UniqueIds(b)
    ensures UniqueIds(a)
  {
    var idx :| IsEmbedding(idx, a, b);
    forall i, j | 0 <= i < j < |a|
      ensures a[i].id != a[j].id
    {
      assert a[i] == b[idx[i]] && a[j] == b[idx[j]] && idx[i] < idx[j];
    }
  }

  /** A drag-and-drop move keeps the ids unique. */
  lemma MovedKeepsUnique(ts: seq<Task>, from: nat, to: nat)
    requires from < |ts| && to < |ts| && UniqueIds(ts)
    ensures UniqueIds(Moved(ts, from, to))
  {
    var m := Moved(ts, from, to);
    forall i, j | 0 <= i < j < |m|
      ensures m[i].id != m[j].id
    {
      MovedAt(ts, from, to, i);
      MovedAt(ts, from, to, j);
    }
  }

  /** The filter selector's test. */
  predicate PassesFilter(f: Filter, t: Task)
  {
    match f
    case Active => !t.completed
    case Completed => t.completed
    case All => true
  }

  /** The search box's test: case-insensitive substring match on the text. */
  predicate MatchesQuery(t: Task, q: string)
  {
    Includes(Lower(t.text), Lower(q))
  }

  /** Searching for a task's own text, or for its lower-cased text, finds it. */
  lemma SearchOwnTextMatches(t: Task)
    ensures MatchesQuery(t, t.text)
    ensures MatchesQuery(t, Lower(t.text))
  {
    IncludesSelf(Lower(t.text));
    LowerIdempotent(t.text);
  }

  /** The `filtered` view: the filter selector first, then the search. Each task
      appears as often as in the list when it passes both tests, else not at all. */
  function Filtered(ts: seq<Task>, f: Filter, q: string): (r: seq<Task>)
    ensures |r| <= |ts|
    ensures forall k :: 0 <= k < |r| ==> PassesFilter(f, r[k]) && MatchesQuery(r[k], q)
    ensures forall t :: multiset(r)[t] == if PassesFilter(f, t) && MatchesQuery(t, q) then multiset(ts)[t] else 0
  {
    var byStatus := Select(ts, (t: Task) => PassesFilter(f, t));
    SelectCount(ts, (t: Task) => PassesFilter(f, t));
    SelectCount(byStatus, (t: Task) => MatchesQuery(t, q));
    Select(byStatus, (t: Task) => MatchesQuery(t, q))
  }

  /** The view lists the shown tasks in canonical order. */
  lemma FilteredIsSubsequence(ts: seq<Task>, f: Filter, q: string)
    ensures IsSubsequence(Filtered(ts, f, q), ts)
  {
    var byStatus := Select(ts, (t: Task) => PassesFilter(f, t));
    SelectIsSubsequence(ts, (t: Task) => PassesFilter(f, t));
    SelectIsSubsequence(byStatus, (t: Task) => MatchesQuery(t, q));
    SubsequenceTransitive(Filtered(ts, f, q), byStatus, ts);
  }

  /** Under "Completed" the view holds exactly the completed tasks that match the query,
      and under "Active" exactly the others that match it. */
  lemma FilteredByStatus(ts: seq<Task>, q: string, t: Task)
    ensures t in Filtered(ts, Completed, q) <==> t in ts && t.completed && MatchesQuery(t, q)
    ensures t in Filtered(ts, Active, q) <==> t in ts && !t.completed && MatchesQuery(t, q)
  {
    assert multiset(Filtered(ts, Completed, q))[t] > 0 <==> t in Filtered(ts, Completed, q);
    assert multiset(Filtered(ts, Active, q))[t] > 0 <==> t in Filtered(ts, Active, q);
  }

  /** With no filter and an empty search the view is the whole list. */
  lemma FilteredAllEmptyQuery(ts: seq<Task>)
    ensures Filtered(ts, All, "") == ts
  {
    SelectAll(ts, (t: Task) => PassesFilter(All, t));
    assert forall k :: 0 <= k < |ts| ==> MatchesQuery(ts[k], "");
    SelectAll(ts, (t: Task) => MatchesQuery(t, ""));
  }

  /** Drag indices are positions in the view but are applied to the whole list.
      With a completed task `a` hidden by the "Active" filter, dragging the first
      shown task `b` onto the second shown task `c` moves `a` instead, and the
      view is left as it was. */
  lemma DropInFilteredViewMovesHiddenTask(a: Task, b: Task, c: Task)
    requires a.completed && !b.completed && !c.completed
    ensures Filtered([a, b, c], Active, "") == [b, c]
    ensures Moved([a, b, c], 0, 1) == [b, a, c]
    ensures Filtered([b, a, c], Active, "") == [b, c]
  {
    ActiveOfThree(a, b, c);
    ActiveOfThree(b, a, c);
    MoveFirstToSecond(a, b, c);
  }

  /** Dropping the first of three tasks on the second swaps the two. */
  lemma MoveFirstToSecond(a: Task, b: Task, c: Task)
    ensures Moved([a, b, c], 0, 1) == [b, a, c]
  {
    assert Delete([a, b, c], 0) == [b, c];
    assert Insert([b, c], 1, a) == [b, a, c];
  }

  /** With the middle or first of three tasks completed and the others not, the
      "Active" view with an empty search drops just that task. */
  lemma ActiveOfThree(x: Task, y: Task, z: Task)
    requires x.completed != y.completed && !z.completed
    ensures Filtered([x, y, z], Active, "") == if x.completed then [y, z] else [x, z]
  {
    var p := (t: Task) => PassesFilter(Active, t);
    var kept := if x.completed then [y, z] else [x, z];
    SelectCons(z, [], p);
    assert [z] + [] == [z];
    SelectCons(y, [z], p);
    assert [y] + [z] == [y, z];
    SelectCons(x, [y, z], p);
    assert [x] + [y, z] == [x, y, z];
    assert Select([x, y, z], p) == kept;
    assert forall k :: 0 <= k < |kept| ==> MatchesQuery(kept[k], "");
    SelectAll(kept, (t: Task) => MatchesQuery(t, ""));
  }

  /** A completed task is neither shown under "Active" nor kept by clearing. */
  lemma CompletedTaskGoes(t: Task, q: string)
    requires t.completed
    ensures Filtered([t], Active, q) == []
    ensures ClearCompleted([t]) == []
  {
    SelectCons(t, [], (u: Task) => PassesFilter(Active, u));
    SelectCons(t, [], (u: Task) => !u.completed);
    assert [t] + [] == [t];
  }

  /** The stored task list is read only when the stored string is non-empty; a
      value that does not parse, like a missing one, leaves the list empty.
      `parsed` is the outcome of `JSON.parse` on the stored string. */
  function LoadTasks(stored: Option<string>, parsed: Option<seq<Task>>): seq<Task>
  {
    if stored.Some? && stored.value != "" && parsed.Some? then parsed.value else []
  }

  /** The theme is dark exactly when the stored mode is the string "dark". */
  function ThemeFromStorage(mode: Option<string>): bool
  {
    mode == Some("dark")
  }

  /** The mode string saved for a theme. */
  function ThemeToStorage(dark: bool): (mode: string)
    ensures mode == "dark" || mode == "light"
  {
    if dark then "dark" else "light"
  }

  /** Saving the theme and loading it back gives the same theme. */
  lemma ThemeRoundTrip(dark: bool)
    ensures ThemeFromStorage(Some(ThemeToStorage(dark))) == dark
  {
  }
}
