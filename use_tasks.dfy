/**
 * The task-list hook (src/hooks/useTasks.ts): the next due date of a
 * recurring task, the normalisation of fetched rows, the row a new task is
 * inserted as, and the `tasks` list the hook keeps and replaces. Database
 * calls are left out; where the code looks at their outcome, that outcome
 * is a parameter.
 */
module UseTasks {
  import opened Wrappers
  import opened Decimal
  import opened Calendar
  import opened IsoDate
  import opened Types
  import opened Seqs

  // ---------------------------------------------------------------------------
  // getNextDueDate

  /** The date one recurrence period after `d`: `addDays(1)`, `addWeeks(1)`, `addMonths(1)` or `addYears(1)`. */
  function Advance(d: Date, r: Recurrence): (next: Date)
    requires ValidDate(d)
    ensures ValidDate(next)
  {
    match r
    case Daily => AddDays(d, 1)
    case Weekly => AddDays(d, 7)
    case Monthly => AddMonths(d, 1)
    case Yearly => AddYears(d, 1)
  }

  /**
   * `getNextDueDate`: the due date one period on, as `yyyy-MM-dd`. For a
   * string that is not a date, `format` throws on the Invalid Date: None.
   */
  function GetNextDueDate(currentDate: string, r: Recurrence): (next: Option<string>)
    ensures next.Some? <==> Parse(currentDate).Some?
  {
    match Parse(currentDate)
    case None => None
    case Some(d) => Some(Format(Advance(d, r)))
  }

  /** Daily adds exactly one calendar day. */
  lemma AdvanceDaily(d: Date)
    requires ValidDate(d)
    ensures DayNumber(Advance(d, Daily)) == DayNumber(d) + 1
  {
  }

  /** Weekly adds exactly seven days and so keeps the weekday. */
  lemma AdvanceWeekly(d: Date)
    requires ValidDate(d)
    ensures DayNumber(Advance(d, Weekly)) == DayNumber(d) + 7
    ensures Weekday(DayNumber(Advance(d, Weekly))) == Weekday(DayNumber(d))
  {
    var n := DayNumber(d);
    assert (n + 7 + 5) % 7 == (n + 5) % 7 by {
      assert n + 7 + 5 == ((n + 5) / 7 + 1) * 7 + (n + 5) % 7;
    }
  }

  /** Monthly keeps the day of the month when the next month has it, and gives that month's last day otherwise. */
  lemma AdvanceMonthly(d: Date)
    requires ValidDate(d)
    ensures var n := Advance(d, Monthly);
      (if d.month < 12 then n.year == d.year && n.month == d.month + 1
       else n.year == d.year + 1 && n.month == 1) &&
      (d.day <= DaysInMonth(n.year, n.month) ==> n.day == d.day) &&
      (d.day > DaysInMonth(n.year, n.month) ==> n.day == DaysInMonth(n.year, n.month))
  {
    AddOneMonth(d);
  }

  /** Yearly keeps month and day, except that 29 February becomes 28 February in a common year. */
  lemma AdvanceYearly(d: Date)
    requires ValidDate(d)
    ensures var n := Advance(d, Yearly);
      n.year == d.year + 1 && n.month == d.month &&
      (n.day == d.day || (d.month == 2 && d.day == 29 && !IsLeapYear(n.year) && n.day == 28))
  {
    AddOneYear(d);
  }

  /** Every recurrence moves the due date strictly later. */
  lemma AdvanceIsLater(d: Date, r: Recurrence)
    requires ValidDate(d)
    ensures DayNumber(d) < DayNumber(Advance(d, r))
  {
    match r
    case Daily =>
    case Weekly =>
    case Monthly => AddOneMonth(d);
    case Yearly => AddOneYear(d);
  }

  /**
   * The text `getNextDueDate` returns names the advanced date, which is
   * strictly later than the current one: it reads back as that date (for
   * dates up to the year 9999), except that a date of the year 0 is written
   * with the era year "0001".
   */
  lemma NextDueDateIsLater(currentDate: string, r: Recurrence)
    requires Parse(currentDate).Some?
    requires Advance(Parse(currentDate).value, r).year <= 9999
    ensures var d, next := Parse(currentDate).value, GetNextDueDate(currentDate, r);
      next.Some? && DayNumber(d) < DayNumber(Advance(d, r)) &&
      (Advance(d, r).year >= 1 ==> Parse(next.value) == Some(Advance(d, r))) &&
      (Advance(d, r).year == 0 ==> next.value[..4] == "0001")
  {
    var d := Parse(currentDate).value;
    var n := Advance(d, r);
    AdvanceIsLater(d, r);
    if n.year >= 1 {
      ParseFormat(n);
    } else {
      assert Format(n)[..4] == YearDigits(1);
      assert TwoDigits(0) == "00" && TwoDigits(1) == "01";
    }
  }

  // The texts of the dates in the examples below.

  lemma Text20240131()
    ensures Format(Date(2024, 1, 31)) == "2024-01-31"
  {
    FormatChars(Date(2024, 1, 31));
  }

  lemma Text20240201()
    ensures Format(Date(2024, 2, 1)) == "2024-02-01"
  {
    FormatChars(Date(2024, 2, 1));
  }

  lemma Text20241231()
    ensures Format(Date(2024, 12, 31)) == "2024-12-31"
  {
    FormatChars(Date(2024, 12, 31));
  }

  lemma Text20250101()
    ensures Format(Date(2025, 1, 1)) == "2025-01-01"
  {
    FormatChars(Date(2025, 1, 1));
  }

  lemma Text20240229()
    ensures Format(Date(2024, 2, 29)) == "2024-02-29"
  {
    FormatChars(Date(2024, 2, 29));
  }

  lemma Text20250228()
    ensures Format(Date(2025, 2, 28)) == "2025-02-28"
  {
    FormatChars(Date(2025, 2, 28));
  }

  /** Daily across a month end. */
  lemma DailyAcrossMonthEnd()
    ensures GetNextDueDate("2024-01-31", Daily) == Some("2024-02-01")
  {
    var d, n := Date(2024, 1, 31), Date(2024, 2, 1);
    Text20240131();
    ParseFormat(d);
    assert Advance(d, Daily) == n;
    Text20240201();
  }

  /** Daily across a year end. */
  lemma DailyAcrossYearEnd()
    ensures GetNextDueDate("2024-12-31", Daily) == Some("2025-01-01")
  {
    var d, n := Date(2024, 12, 31), Date(2025, 1, 1);
    Text20241231();
    ParseFormat(d);
    assert Advance(d, Daily) == n;
    Text20250101();
  }

  /** Monthly from 31 January of a leap year clamps to 29 February. */
  lemma MonthlyClampsToMonthEnd()
    ensures GetNextDueDate("2024-01-31", Monthly) == Some("2024-02-29")
  {
    var d, n := Date(2024, 1, 31), Date(2024, 2, 29);
    Text20240131();
    ParseFormat(d);
    assert Advance(d, Monthly) == n;
    Text20240229();
  }

  /** Yearly from a leap day lands on 28 February. */
  lemma YearlyFromLeapDay()
    ensures GetNextDueDate("2024-02-29", Yearly) == Some("2025-02-28")
  {
    var d, n := Date(2024, 2, 29), Date(2025, 2, 28);
    Text20240229();
    ParseFormat(d);
    assert Advance(d, Yearly) == n;
    Text20250228();
  }

  /** A month that does not exist gives no next date. */
  lemma NoNextDateForInvalidDate()
    ensures GetNextDueDate("2024-13-01", Daily) == None
  {
    var s := "2024-13-01";
    assert FullDateShape(s);
    TwoDigitValue(s[5..7]);
    assert StringToNat(s[5..7]) == 13;
  }

  // ---------------------------------------------------------------------------
  // fetchTasks: normalising the rows the query returns

  /** A column of a fetched row: missing from the object, `null`, or a value. */
  datatype RawField<T> = Absent | Null | Present(value: T)

  /** One entry of the `task_tags(tags(*))` join: the joined tag, or null. */
  datatype RawTaskTag = RawTaskTag(tags: Option<Tag>)

  /** A row as the query returns it; `taskTags` is None where the join is missing. */
  datatype RawTask = RawTask(
    id: string,
    userId: string,
    listId: Option<string>,
    title: string,
    notes: Option<string>,
    dueDate: Option<string>,
    completed: bool,
    priority: RawField<Priority>,
    recurrence: RawField<Recurrence>,
    sortOrder: RawField<int>,
    createdAt: string,
    taskTags: Option<seq<RawTaskTag>>)

  /** `x ?? null`: the value if there is one, null for a missing or null column. */
  function OrNull<T>(f: RawField<T>): (r: Option<T>)
    ensures r.Some? <==> f.Present?
    ensures r.Some? ==> r.value == f.value
  {
    if f.Present? then Some(f.value) else None
  }

  /** `flatMap((tt) => (tt.tags ? [tt.tags] : []))`: the joined tags with the null entries dropped. */
  function JoinedTags(tts: seq<RawTaskTag>): (r: seq<Tag>)
    ensures |r| <= |tts|
    ensures forall x :: x in r <==> RawTaskTag(Some(x)) in tts
  {
    if |tts| == 0 then []
    else
      var init, last := tts[..|tts| - 1], tts[|tts| - 1];
      assert tts == init + [last];
      JoinedTags(init) + (if last.tags.Some? then [last.tags.value] else [])
  }

  /** Dropping the null entries keeps the order of the others: it distributes over concatenation. */
  lemma {:induction false} JoinedTagsAppend(a: seq<RawTaskTag>, b: seq<RawTaskTag>)
    ensures JoinedTags(a + b) == JoinedTags(a) + JoinedTags(b)
    decreases |b|
  {
    if |b| > 0 {
      var b0, last := b[..|b| - 1], b[|b| - 1];
      assert a + b == (a + b0) + [last];
      assert (a + b)[..|a + b| - 1] == a + b0;
      assert b[..|b| - 1] == b0;
      JoinedTagsAppend(a, b0);
    } else {
      assert a + b == a;
    }
  }

  /** A join entry contributes its tag, or nothing when it is null. */
  lemma JoinedTagsOfOne(tt: RawTaskTag)
    ensures JoinedTags([tt]) == (if tt.tags.Some? then [tt.tags.value] else [])
  {
    assert [tt][..0] == [];
  }

  /** One row as the application holds it. */
  function NormaliseRow(raw: RawTask): (t: Task)
    ensures t.id == raw.id && t.userId == raw.userId && t.listId == raw.listId && t.title == raw.title
    ensures t.notes == raw.notes && t.dueDate == raw.dueDate && t.completed == raw.completed
    ensures t.createdAt == raw.createdAt
    ensures t.priority.None? <==> !raw.priority.Present?
    ensures t.recurrence.None? <==> !raw.recurrence.Present?
    ensures t.sortOrder.None? <==> !raw.sortOrder.Present?
    ensures t.priority == OrNull(raw.priority) && t.recurrence == OrNull(raw.recurrence)
    ensures t.sortOrder == OrNull(raw.sortOrder)
    ensures raw.sortOrder.Present? ==> t.sortOrder == Some(raw.sortOrder.value)
    ensures t.tags == Some(if raw.taskTags.Some? then JoinedTags(raw.taskTags.value) else [])
    ensures raw.taskTags.None? ==> t.tags == Some([])
    ensures raw.taskTags.Some? ==> t.tags.Some? && forall x :: x in t.tags.value <==> RawTaskTag(Some(x)) in raw.taskTags.value
  {
    Task(raw.id, raw.userId, raw.listId, raw.title, raw.notes, raw.dueDate, raw.completed,
         OrNull(raw.priority), OrNull(raw.recurrence), OrNull(raw.sortOrder), raw.createdAt,
         Some(if raw.taskTags.Some? then JoinedTags(raw.taskTags.value) else []))
  }

  /** The normalised list: one task per row, in the order of the rows. */
  function Normalise(rows: seq<RawTask>): (ts: seq<Task>)
    ensures |ts| == |rows|
    ensures forall i :: 0 <= i < |rows| ==> ts[i] == NormaliseRow(rows[i])
  {
    if |rows| == 0 then [] else [NormaliseRow(rows[0])] + Normalise(rows[1..])
  }

  /** Every normalised task carries a tag array (so none is dropped by a tag filter for lacking one). */
  lemma NormalisedTasksHaveTags(rows: seq<RawTask>)
    ensures forall t :: t in Normalise(rows) ==> t.tags.Some?
  {
  }

  /** The outcome of the fetch query: an error, no data, or the rows. */
  datatype FetchResponse = FetchError | FetchNoData | FetchRows(rows: seq<RawTask>)

  // ---------------------------------------------------------------------------
  // deleteTask, toggleComplete and reorderTasks on the local list

  /** `prev.filter((t) => t.id !== id)`. */
  function WithoutTask(ts: seq<Task>, id: string): (r: seq<Task>)
    ensures IsSubsequence(r, ts)
    ensures forall t :: t in r <==> t in ts && t.id != id
  {
    if |ts| == 0 then []
    else
      var init, last := ts[..|ts| - 1], ts[|ts| - 1];
      assert ts == init + [last];
      if last.id != id then WithoutTask(init, id) + [last] else WithoutTask(init, id)
  }

  /** `WithoutTask` keeps each task that passes as many times as `ts` holds it, and no other. */
  lemma {:induction false} WithoutTaskCounts(ts: seq<Task>, id: string)
    ensures forall t :: multiset(WithoutTask(ts, id))[t] == if t.id != id then multiset(ts)[t] else 0
  {
    if |ts| > 0 {
      var init, last := ts[..|ts| - 1], ts[|ts| - 1];
      assert ts == init + [last];
      assert multiset(ts) == multiset(init) + multiset{last};
      WithoutTaskCounts(init, id);
    }
  }

  /** Deleting an id no task has leaves the list as it is. */
  lemma {:induction false} WithoutAbsentTask(ts: seq<Task>, id: string)
    requires forall t :: t in ts ==> t.id != id
    ensures WithoutTask(ts, id) == ts
  {
    if |ts| > 0 {
      var init := ts[..|ts| - 1];
      assert forall t :: t in init ==> t in ts;
      WithoutAbsentTask(init, id);
      assert ts == init + [ts[|ts| - 1]];
    }
  }

  /** Deleting twice is deleting once. */
  lemma WithoutTaskIdempotent(ts: seq<Task>, id: string)
    ensures WithoutTask(WithoutTask(ts, id), id) == WithoutTask(ts, id)
  {
    WithoutAbsentTask(WithoutTask(ts, id), id);
  }

  /** `tasks.find((t) => t.id === id)`: the first task with the id. */
  function FindTask(ts: seq<Task>, id: string): (r: Option<Task>)
    ensures r.None? <==> forall t :: t in ts ==> t.id != id
    ensures r.Some? ==>
      exists i :: 0 <= i < |ts| && ts[i] == r.value && r.value.id == id && forall j :: 0 <= j < i ==> ts[j].id != id
  {
    if |ts| == 0 then None
    else if ts[0].id == id then Some(ts[0])
    else
      var r := FindTask(ts[1..], id);
      assert forall t :: t in ts ==> t == ts[0] || t in ts[1..];
      if r.Some? then
        var i :| 0 <= i < |ts[1..]| && ts[1..][i] == r.value && r.value.id == id &&
          forall j :: 0 <= j < i ==> ts[1..][j].id != id;
        assert ts[i + 1] == r.value && forall j :: 0 <= j < i + 1 ==> ts[j].id != id;
        r
      else r
  }

  /** A recurring task with a due date: the task `toggleComplete` spawns a successor of. */
  predicate Recurs(t: Task) {
    t.recurrence.Some? && Truthy(t.dueDate)
  }

  /** What `toggleComplete` ends with: the update failed, it went on (maybe inserting a successor), or `format` threw. */
  datatype ToggleOutcome = UpdateFailed | Toggled(successor: Option<TaskInsert>) | NextDateThrew

  /** One entry of the `reorderTasks` argument. */
  datatype SortUpdate = SortUpdate(id: string, sortOrder: int)

  /** `updates.find((x) => x.id === id)`: the first update for the id. */
  function FindUpdate(updates: seq<SortUpdate>, id: string): (r: Option<SortUpdate>)
    ensures r.None? <==> forall u :: u in updates ==> u.id != id
    ensures r.Some? ==>
      exists i :: 0 <= i < |updates| && updates[i] == r.value && r.value.id == id &&
        forall j :: 0 <= j < i ==> updates[j].id != id
  {
    if |updates| == 0 then None
    else if updates[0].id == id then Some(updates[0])
    else
      var r := FindUpdate(updates[1..], id);
      assert forall u :: u in updates ==> u == updates[0] || u in updates[1..];
      if r.Some? then
        var i :| 0 <= i < |updates[1..]| && updates[1..][i] == r.value && r.value.id == id &&
          forall j :: 0 <= j < i ==> updates[1..][j].id != id;
        assert updates[i + 1] == r.value && forall j :: 0 <= j < i + 1 ==> updates[j].id != id;
        r
      else r
  }

  /** One task under the optimistic reorder. */
  function Reordered(t: Task, updates: seq<SortUpdate>): Task {
    match FindUpdate(updates, t.id)
    case Some(u) => t.(sortOrder := Some(u.sortOrder))
    case None => t
  }

  /**
   * The optimistic `reorderTasks` update: the same tasks in the same order,
   * each taking the sort order of the first update with its id; nothing else
   * changes.
   */
  function WithSortOrders(ts: seq<Task>, updates: seq<SortUpdate>): (r: seq<Task>)
    ensures |r| == |ts|
    ensures forall i :: 0 <= i < |ts| ==> r[i] == ts[i].(sortOrder := r[i].sortOrder)
    ensures forall i :: 0 <= i < |ts| ==>
      r[i].sortOrder == (if FindUpdate(updates, ts[i].id).Some? then Some(FindUpdate(updates, ts[i].id).value.sortOrder) else ts[i].sortOrder)
  {
    seq(|ts|, i requires 0 <= i < |ts| => Reordered(ts[i], updates))
  }

  /** Applying the same reorder twice is applying it once. */
  lemma WithSortOrdersIdempotent(ts: seq<Task>, updates: seq<SortUpdate>)
    ensures WithSortOrders(WithSortOrders(ts, updates), updates) == WithSortOrders(ts, updates)
  {
    var once := WithSortOrders(ts, updates);
    var twice := WithSortOrders(once, updates);
    forall i | 0 <= i < |ts|
      ensures twice[i] == once[i]
    {
      assert once[i].id == ts[i].id;
    }
  }

  /** A reorder whose updates name no task leaves the list as it is. */
  lemma WithSortOrdersNoMatch(ts: seq<Task>, updates: seq<SortUpdate>)
    requires forall t, u :: t in ts && u in updates ==> t.id != u.id
    ensures WithSortOrders(ts, updates) == ts
  {
    var r := WithSortOrders(ts, updates);
    forall i | 0 <= i < |ts|
      ensures r[i] == ts[i]
    {
      assert ts[i] in ts;
      assert FindUpdate(updates, ts[i].id).None?;
    }
  }

  // ---------------------------------------------------------------------------
  // createTask

  /** `x || null` on an optional string: an empty or missing string becomes null. */
  function EmptyToNull(s: Option<string>): (r: Option<string>)
    ensures r.Some? <==> Truthy(s)
    ensures r.Some? ==> r == s
  {
    if Truthy(s) then s else None
  }

  /** The argument of `createTask`; `listId` is None for both undefined and null. */
  datatype NewTask = NewTask(
    title: string,
    notes: Option<string>,
    dueDate: Option<string>,
    listId: Option<string>,
    priority: Option<Priority>,
    recurrence: Option<Recurrence>,
    tagIds: Option<seq<string>>)

  /** The row `createTask` inserts, or its error when no user is signed in. */
  function NewTaskRow(userId: Option<string>, input: NewTask): (r: Result<TaskInsert, string>)
    ensures r.Err? <==> !Truthy(userId)
    ensures r.Err? ==> r.error == "Not logged in"
    ensures r.Ok? ==> r.value.title == input.title && r.value.userId == userId
    ensures r.Ok? ==> r.value.priority == input.priority && r.value.recurrence == input.recurrence
    ensures r.Ok? ==> (r.value.notes.Some? <==> Truthy(input.notes)) && (r.value.notes.Some? ==> r.value.notes == input.notes)
    ensures r.Ok? ==> (r.value.dueDate.Some? <==> Truthy(input.dueDate)) && (r.value.dueDate.Some? ==> r.value.dueDate == input.dueDate)
    ensures r.Ok? ==> (r.value.listId.Some? <==> Truthy(input.listId)) && (r.value.listId.Some? ==> r.value.listId == input.listId)
  {
    if !Truthy(userId) then Err("Not logged in")
    else Ok(TaskInsert(input.title, EmptyToNull(input.notes), EmptyToNull(input.dueDate), EmptyToNull(input.listId),
                       input.priority, input.recurrence, userId))
  }

  /** A new task is never stored with an empty due date, nor with empty notes or folder. */
  lemma NewTaskRowHasNoEmptyStrings(userId: Option<string>, input: NewTask)
    requires NewTaskRow(userId, input).Ok?
    ensures var row := NewTaskRow(userId, input).value;
      row.dueDate != Some("") && row.notes != Some("") && row.listId != Some("")
  {
  }

  /** The reply to the insert: an error message, no row, or the new row's id. */
  datatype InsertReply = InsertError(message: string) | InsertNoData | Inserted(id: string)

  /** A `task_tags` row linking a task to a tag. */
  datatype TaskTagLink = TaskTagLink(taskId: string, tagId: string)

  /**
   * What `createTask` ends with: the row it sends to the insert (None when it
   * stops before), its returned error, the tag links it inserts, and whether
   * it refetches.
   */
  datatype CreateOutcome = CreateOutcome(inserted: Option<TaskInsert>, error: Option<string>, tagLinks: seq<TaskTagLink>, refetch: bool)

  /** The hook's `tasks` state for one signed-in (or signed-out) user. */
  class TaskStore {
    const userId: Option<string>
    var tasks: seq<Task>

    /** `useState<Task[]>([])`. */
    constructor(userId: Option<string>)
      ensures this.userId == userId && tasks == []
    {
      this.userId := userId;
      tasks := [];
    }

    /** `fetchTasks`: replaces the list by the normalised rows; no user, an error or no data leaves it. */
    method FetchTasks(response: FetchResponse)
      modifies this
      ensures tasks == (if Truthy(userId) && response.FetchRows? then Normalise(response.rows) else old(tasks))
    {
      if !Truthy(userId) {
        return;
      }
      if response.FetchRows? {
        tasks := Normalise(response.rows);
      }
    }

    /** `deleteTask`: every task with the id leaves the list, the others keep their order. */
    method DeleteTask(id: string)
      modifies this
      ensures tasks == WithoutTask(old(tasks), id)
      ensures forall t :: t in tasks ==> t.id != id
      ensures IsSubsequence(tasks, old(tasks))
    {
      tasks := WithoutTask(tasks, id);
    }

    /** `reorderTasks`: the optimistic update of the sort orders. */
    method ReorderTasks(updates: seq<SortUpdate>)
      modifies this
      ensures tasks == WithSortOrders(old(tasks), updates)
      ensures |tasks| == |old(tasks)|
    {
      tasks := WithSortOrders(tasks, updates);
    }

    /**
     * `toggleComplete` after the completion update (whose failure is
     * `updateFailed`): on completing a recurring task with a due date it
     * inserts a successor one period on. The list itself changes only
     * through the refetch a `Toggled` outcome asks for.
     */
    method ToggleComplete(id: string, completed: bool, updateFailed: bool) returns (outcome: ToggleOutcome)
      ensures updateFailed <==> outcome == UpdateFailed
      ensures (outcome.Toggled? && outcome.successor.Some?) <==>
        !updateFailed && completed && FindTask(tasks, id).Some? && Recurs(FindTask(tasks, id).value) &&
        GetNextDueDate(FindTask(tasks, id).value.dueDate.value, FindTask(tasks, id).value.recurrence.value).Some?
      ensures outcome == NextDateThrew <==>
        !updateFailed && completed && FindTask(tasks, id).Some? && Recurs(FindTask(tasks, id).value) &&
        GetNextDueDate(FindTask(tasks, id).value.dueDate.value, FindTask(tasks, id).value.recurrence.value).None?
      ensures outcome.Toggled? && outcome.successor.Some? ==>
        var t, s := FindTask(tasks, id).value, outcome.successor.value;
        s.title == t.title && s.notes == t.notes && s.listId == t.listId && s.priority == t.priority &&
        s.recurrence == t.recurrence && s.userId == userId &&
        s.dueDate == GetNextDueDate(t.dueDate.value, t.recurrence.value)
    {
      if updateFailed {
        return UpdateFailed;
      }
      if completed {
        var found := FindTask(tasks, id);
        if found.Some? && Recurs(found.value) {
          var task := found.value;
          var next := GetNextDueDate(task.dueDate.value, task.recurrence.value);
          if next.None? {
            return NextDateThrew;
          }
          var row := TaskInsert(task.title, task.notes, next, task.listId, task.priority, task.recurrence, userId);
          return Toggled(Some(row));
        }
      }
      return Toggled(None);
    }

    /**
     * `createTask` given the reply to its insert: the row it inserts, the
     * error it returns, the tag links it inserts and whether it refetches.
     */
    method CreateTask(input: NewTask, reply: InsertReply) returns (outcome: CreateOutcome)
      ensures !Truthy(userId) ==> outcome == CreateOutcome(None, Some("Not logged in"), [], false)
      ensures Truthy(userId) ==> outcome.inserted == Some(NewTaskRow(userId, input).value)
      ensures Truthy(userId) && reply.InsertError? ==> outcome.error == Some(reply.message) && outcome.tagLinks == [] && !outcome.refetch
      ensures Truthy(userId) && reply.InsertNoData? ==>
        outcome.error == Some("Task could not be saved. Please try again.") && outcome.tagLinks == [] && !outcome.refetch
      ensures Truthy(userId) && reply.Inserted? ==> outcome.error.None? && outcome.refetch
      ensures Truthy(userId) && reply.Inserted? ==>
        var ids := if input.tagIds.Some? then input.tagIds.value else [];
        |outcome.tagLinks| == |ids| &&
        forall i :: 0 <= i < |ids| ==> outcome.tagLinks[i] == TaskTagLink(reply.id, ids[i])
    {
      var row := NewTaskRow(userId, input);
      if row.Err? {
        return CreateOutcome(None, Some(row.error), [], false);
      }
      var sent := Some(row.value);
      match reply
      case InsertError(message) =>
        return CreateOutcome(sent, Some(message), [], false);
      case InsertNoData =>
        return CreateOutcome(sent, Some("Task could not be saved. Please try again."), [], false);
      case Inserted(taskId) =>
        var links: seq<TaskTagLink> := [];
        if input.tagIds.Some? && |input.tagIds.value| > 0 {
          var ids := input.tagIds.value;
          links := seq(|ids|, i requires 0 <= i < |ids| => TaskTagLink(taskId, ids[i]));
        }
        return CreateOutcome(sent, None, links, true);
    }
  }
}
