/**
 * The dashboard page (src/pages/Dashboard.tsx): the folder and tag filter
 * whose result is grouped, the counters of the sidebar and the heading, the
 * request a saved form becomes, and the reminder banner.
 */
module Dashboard {
  import opened Wrappers
  import opened Decimal
  import opened Calendar
  import opened Types
  import opened Seqs
  import opened DueGroups
  import opened GroupByDueDate
  import opened UseTasks

  /** `t.tags?.some((tag) => tag.id === tagId)`: false for a task without a tag array. */
  predicate HasTag(t: Task, tagId: string) {
    t.tags.Some? && exists i :: 0 <= i < |t.tags.value| && t.tags.value[i].id == tagId
  }

  /** The test `filteredTasks` applies: the selected folder, then the selected tag, when one is selected. */
  predicate Shown(t: Task, selectedListId: Option<string>, selectedTagId: Option<string>) {
    (Truthy(selectedListId) ==> t.listId == selectedListId) &&
    (Truthy(selectedTagId) ==> HasTag(t, selectedTagId.value))
  }

  /** `filteredTasks`: the tasks the selection shows, in their order. */
  function FilteredTasks(ts: seq<Task>, selectedListId: Option<string>, selectedTagId: Option<string>): (r: seq<Task>)
    ensures IsSubsequence(r, ts)
    ensures forall t :: t in r <==> t in ts && Shown(t, selectedListId, selectedTagId)
  {
    if |ts| == 0 then []
    else
      var init, last := ts[..|ts| - 1], ts[|ts| - 1];
      assert ts == init + [last];
      if Shown(last, selectedListId, selectedTagId) then FilteredTasks(init, selectedListId, selectedTagId) + [last]
      else FilteredTasks(init, selectedListId, selectedTagId)
  }

  /** `FilteredTasks` keeps each task that passes as many times as `ts` holds it, and no other. */
  lemma {:induction false} FilteredTasksCounts(ts: seq<Task>, selectedListId: Option<string>, selectedTagId: Option<string>)
    ensures forall t :: multiset(FilteredTasks(ts, selectedListId, selectedTagId))[t] == if Shown(t, selectedListId, selectedTagId) then multiset(ts)[t] else 0
  {
    if |ts| > 0 {
      var init, last := ts[..|ts| - 1], ts[|ts| - 1];
      assert ts == init + [last];
      assert multiset(ts) == multiset(init) + multiset{last};
      FilteredTasksCounts(init, selectedListId, selectedTagId);
    }
  }

  /** With no folder and no tag selected, every task is shown, in order. */
  lemma {:induction false} NoSelectionShowsAll(ts: seq<Task>, selectedListId: Option<string>, selectedTagId: Option<string>)
    requires !Truthy(selectedListId) && !Truthy(selectedTagId)
    ensures FilteredTasks(ts, selectedListId, selectedTagId) == ts
  {
    if |ts| > 0 {
      NoSelectionShowsAll(ts[..|ts| - 1], selectedListId, selectedTagId);
      assert ts == ts[..|ts| - 1] + [ts[|ts| - 1]];
    }
  }

  /** A selected folder keeps only its tasks; a selected tag only tasks that carry it, never one without tags. */
  lemma FilteredTasksSelection(ts: seq<Task>, selectedListId: Option<string>, selectedTagId: Option<string>)
    ensures Truthy(selectedListId) ==>
      forall t :: t in FilteredTasks(ts, selectedListId, selectedTagId) ==> t.listId == selectedListId
    ensures Truthy(selectedTagId) ==>
      forall t :: t in FilteredTasks(ts, selectedListId, selectedTagId) ==>
        t.tags.Some? && exists i :: 0 <= i < |t.tags.value| && t.tags.value[i].id == selectedTagId.value
  {
  }

  // ---------------------------------------------------------------------------
  // Counters

  /** `tasks.filter((t) => t.list_id === listId && !t.completed)`: a folder's incomplete tasks. */
  function FolderTasks(ts: seq<Task>, listId: string): (r: seq<Task>)
    ensures IsSubsequence(r, ts)
    ensures forall t :: t in r <==> t in ts && t.listId == Some(listId) && !t.completed
  {
    if |ts| == 0 then []
    else
      var init, last := ts[..|ts| - 1], ts[|ts| - 1];
      assert ts == init + [last];
      if last.listId == Some(listId) && !last.completed then FolderTasks(init, listId) + [last]
      else FolderTasks(init, listId)
  }

  /** `FolderTasks` keeps each task that passes as many times as `ts` holds it, and no other. */
  lemma {:induction false} FolderTasksCounts(ts: seq<Task>, listId: string)
    ensures forall t :: multiset(FolderTasks(ts, listId))[t] == if t.listId == Some(listId) && !t.completed then multiset(ts)[t] else 0
  {
    if |ts| > 0 {
      var init, last := ts[..|ts| - 1], ts[|ts| - 1];
      assert ts == init + [last];
      assert multiset(ts) == multiset(init) + multiset{last};
      FolderTasksCounts(init, listId);
    }
  }

  /** The heading's "remaining" count: the incomplete tasks among those shown, which with the completed ones make up all shown. */
  function RemainingCount(ts: seq<Task>, selectedListId: Option<string>, selectedTagId: Option<string>): (c: nat)
    ensures var shown := FilteredTasks(ts, selectedListId, selectedTagId);
      c + |CompletedTasks(shown)| == |shown|
  {
    var shown := FilteredTasks(ts, selectedListId, selectedTagId);
    PartitionSizes(shown);
    |ActiveTasks(shown)|
  }

  /** The "All Tasks" count: the incomplete tasks, whatever is selected; with the completed ones they make up all tasks. */
  function AllTasksCount(ts: seq<Task>): (c: nat)
    ensures c + |CompletedTasks(ts)| == |ts|
  {
    PartitionSizes(ts);
    |ActiveTasks(ts)|
  }

  /** A folder's count in the sidebar, never more than the "All Tasks" count. */
  function FolderCount(ts: seq<Task>, listId: string): (c: nat)
    ensures c <= AllTasksCount(ts)
  {
    FolderAtMostAll(ts, listId);
    |FolderTasks(ts, listId)|
  }

  /** A folder's incomplete tasks are among all incomplete tasks. */
  lemma {:induction false} FolderAtMostAll(ts: seq<Task>, listId: string)
    ensures |FolderTasks(ts, listId)| <= |ActiveTasks(ts)|
  {
    if |ts| > 0 {
      var init := ts[..|ts| - 1];
      assert ts == init + [ts[|ts| - 1]];
      FolderAtMostAll(init, listId);
    }
  }

  lemma ActiveTasksSnoc(ts: seq<Task>, t: Task)
    ensures ActiveTasks(ts + [t]) == ActiveTasks(ts) + (if t.completed then [] else [t])
  {
    assert (ts + [t])[..|ts + [t]| - 1] == ts;
  }

  /** Never more remain than the "All Tasks" count. */
  lemma {:induction false} RemainingAtMostAll(ts: seq<Task>, selectedListId: Option<string>, selectedTagId: Option<string>)
    ensures RemainingCount(ts, selectedListId, selectedTagId) <= AllTasksCount(ts)
  {
    if |ts| > 0 {
      var init, last := ts[..|ts| - 1], ts[|ts| - 1];
      assert ts == init + [last];
      RemainingAtMostAll(init, selectedListId, selectedTagId);
      ActiveTasksSnoc(init, last);
      if Shown(last, selectedListId, selectedTagId) {
        ActiveTasksSnoc(FilteredTasks(init, selectedListId, selectedTagId), last);
      }
    }
  }

  /** With nothing selected, the heading's count is the "All Tasks" count. */
  lemma RemainingWithoutSelection(ts: seq<Task>, selectedListId: Option<string>, selectedTagId: Option<string>)
    requires !Truthy(selectedListId) && !Truthy(selectedTagId)
    ensures RemainingCount(ts, selectedListId, selectedTagId) == AllTasksCount(ts)
  {
    NoSelectionShowsAll(ts, selectedListId, selectedTagId);
  }

  /** With a folder selected and no tag, the heading's count is that folder's sidebar count. */
  lemma {:induction false} RemainingInFolder(ts: seq<Task>, listId: string, selectedTagId: Option<string>)
    requires listId != "" && !Truthy(selectedTagId)
    ensures RemainingCount(ts, Some(listId), selectedTagId) == FolderCount(ts, listId)
  {
    if |ts| > 0 {
      var init, last := ts[..|ts| - 1], ts[|ts| - 1];
      assert ts == init + [last];
      RemainingInFolder(init, listId, selectedTagId);
      if Shown(last, Some(listId), selectedTagId) {
        ActiveTasksSnoc(FilteredTasks(init, Some(listId), selectedTagId), last);
      }
    }
  }

  /** The remaining count is the number of tasks the `active` view of the shown tasks lays out in its groups. */
  lemma RemainingIsActiveGroupsSize(ts: seq<Task>, selectedListId: Option<string>, selectedTagId: Option<string>, today: Date)
    requires ValidDate(today)
    ensures RemainingCount(ts, selectedListId, selectedTagId) ==
      SumSizes(GroupsOf(FilteredTasks(ts, selectedListId, selectedTagId), Active, today))
  {
    GroupsCoverAdmitted(FilteredTasks(ts, selectedListId, selectedTagId), Active, today);
  }

  /** `{n} task{n > 1 ? 's' : ''} need your attention`: the count's numeral, then "tasks" exactly for more than one. */
  function AttentionLabel(n: nat): (a: string)
    ensures var w := |NatToString(n)|;
      w + 6 <= |a| && a[..w] == NatToString(n) && a[w..w + 5] == " task" && (a[w + 5] == 's' <==> n > 1)
  {
    var d := NatToString(n);
    var a := d + " task" + (if n > 1 then "s" else "") + " need your attention";
    assert a[..|d|] == d && a[|d|..|d| + 5] == " task";
    a
  }

  /** `{n} task{n !== 1 ? 's' : ''} remaining`: the count's numeral, then "tasks" for every count but one. */
  function RemainingLabel(n: nat): (b: string)
    ensures var w := |NatToString(n)|;
      w + 6 <= |b| && b[..w] == NatToString(n) && b[w..w + 5] == " task" && (b[w + 5] == 's' <==> n != 1)
  {
    var d := NatToString(n);
    var b := d + " task" + (if n != 1 then "s" else "") + " remaining";
    assert b[..|d|] == d && b[|d|..|d| + 5] == " task";
    b
  }

  /**
   * The banner's `> 1` and the heading's `!== 1` choose the same word,
   * "task" or "tasks", exactly for the counts the banner can show (at least
   * one); at zero the heading says "tasks" and the banner would say "task".
   */
  lemma PluralRulesAgreeFromOne(n: nat)
    ensures var w := |NatToString(n)|;
      (AttentionLabel(n)[w + 5] == 's' <==> RemainingLabel(n)[w + 5] == 's') <==> n >= 1
  {
  }

  // ---------------------------------------------------------------------------
  // The reminder banner

  /** The banner is shown while it is not dismissed and some task is due; then it lists at least the first due title. */
  predicate BannerShown(dismissed: bool, due: seq<Task>): (shown: bool)
    ensures shown ==> |BannerTitles(due)| >= 1 && BannerTitles(due)[0] == due[0].title
  {
    !dismissed && |due| > 0
  }

  /** The titles the banner lists: `dueTasks.slice(0, 3)`. */
  function BannerTitles(due: seq<Task>): (titles: seq<string>)
    ensures |titles| <= 3
    ensures |titles| == if |due| < 3 then |due| else 3
    ensures forall i :: 0 <= i < |titles| ==> titles[i] == due[i].title
  {
    var shown := if |due| < 3 then due else due[..3];
    seq(|shown|, i requires 0 <= i < |shown| => shown[i].title)
  }

  /** The "and N more…" line: present exactly when more than three tasks are due. */
  function BannerMore(due: seq<Task>): (more: Option<nat>)
    ensures more.Some? <==> |due| > 3
    ensures more.Some? ==> more.value == |due| - 3 && more.value > 0
  {
    if |due| > 3 then Some(|due| - 3) else None
  }

  /** Listed titles and the "more" count account for every due task. */
  lemma BannerAccountsForAll(due: seq<Task>)
    ensures |BannerTitles(due)| + (if BannerMore(due).Some? then BannerMore(due).value else 0) == |due|
  {
  }

  // ---------------------------------------------------------------------------
  // handleSaveTask

  /** The form data the modal saves. */
  datatype TaskForm = TaskForm(title: string, notes: string, dueDate: string, tagIds: seq<string>, listId: Option<string>)

  /** The fields `updateTask` is given on edit. */
  datatype TaskUpdate = TaskUpdate(title: string, notes: string, dueDate: Option<string>, listId: Option<string>, tagIds: seq<string>)

  /** What saving the form asks of the task hook: an update of the edited task, or a new task. */
  datatype SaveRequest = UpdateRequest(id: string, update: TaskUpdate) | CreateRequest(input: NewTask)

  /** `handleSaveTask`. */
  function SaveTask(editing: Option<Task>, data: TaskForm): (r: SaveRequest)
    ensures r.UpdateRequest? <==> editing.Some?
    ensures r.UpdateRequest? ==>
      r.id == editing.value.id && r.update.title == data.title &&
      r.update.notes == data.notes && r.update.listId == data.listId && r.update.tagIds == data.tagIds
    ensures r.UpdateRequest? ==>
      (r.update.dueDate.None? <==> data.dueDate == "") &&
      (r.update.dueDate.Some? ==> r.update.dueDate.value == data.dueDate)
    ensures r.CreateRequest? ==>
      r.input.title == data.title && r.input.notes == Some(data.notes) &&
      r.input.dueDate == Some(data.dueDate) && r.input.listId == data.listId && r.input.tagIds == Some(data.tagIds)
    ensures r.CreateRequest? ==> r.input.priority.None? && r.input.recurrence.None?
  {
    if editing.Some? then
      UpdateRequest(editing.value.id,
        TaskUpdate(data.title, data.notes, if data.dueDate == "" then None else Some(data.dueDate), data.listId, data.tagIds))
    else
      CreateRequest(NewTask(data.title, Some(data.notes), Some(data.dueDate), data.listId, None, None, Some(data.tagIds)))
  }

  /** An empty due date is saved as null on both paths: the edit maps it here, the create path in `createTask`. */
  lemma SavedDueDateNeverEmpty(editing: Option<Task>, data: TaskForm, userId: Option<string>)
    ensures var r := SaveTask(editing, data);
      (r.UpdateRequest? ==> r.update.dueDate != Some("")) &&
      (r.CreateRequest? && NewTaskRow(userId, r.input).Ok? ==> NewTaskRow(userId, r.input).value.dueDate != Some(""))
  {
  }
}
