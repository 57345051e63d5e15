/**
 * The reminder hook (src/hooks/useReminders.ts): the tasks that are due,
 * their split into overdue and due today, the text of the notification,
 * and the two flags the hook keeps. Whether the browser offers
 * notifications and whether permission ends up granted are parameters.
 */
module UseReminders {
  import opened Wrappers
  import opened Decimal
  import opened Calendar
  import opened IsoDate
  import opened Types
  import opened Seqs

  /** The `dueTasks` test: incomplete, with a due date that is today or earlier. */
  predicate IsDue(t: Task, today: Date): (due: bool)
    requires ValidDate(today)
    ensures due ==> !t.completed && t.dueDate.Some? && Parse(t.dueDate.value).Some?
  {
    !t.completed && Truthy(t.dueDate) && (IsToday(t.dueDate.value, today) || IsPastDay(t.dueDate.value, today))
  }

  /** A task is due exactly when it is incomplete and names a valid day on or before today. */
  lemma IsDueByDay(t: Task, today: Date)
    requires ValidDate(today)
    ensures IsDue(t, today) <==>
      !t.completed && t.dueDate.Some? && Parse(t.dueDate.value).Some? &&
      DayNumber(Parse(t.dueDate.value).value) <= DayNumber(today)
  {
    if t.dueDate.Some? && Parse(t.dueDate.value).Some? {
      DayNumberOrder(Parse(t.dueDate.value).value, today);
    }
  }

  /** `dueTasks`: the due tasks in input order. */
  function DueTasks(ts: seq<Task>, today: Date): (r: seq<Task>)
    requires ValidDate(today)
    ensures IsSubsequence(r, ts)
    ensures forall t :: t in r <==> t in ts && IsDue(t, today)
  {
    if |ts| == 0 then []
    else
      var init, last := ts[..|ts| - 1], ts[|ts| - 1];
      assert ts == init + [last];
      if IsDue(last, today) then DueTasks(init, today) + [last] else DueTasks(init, today)
  }

  /** `DueTasks` keeps each task that passes as many times as `ts` holds it, and no other. */
  lemma {:induction false} DueTasksCounts(ts: seq<Task>, today: Date)
    requires ValidDate(today)
    ensures forall t :: multiset(DueTasks(ts, today))[t] == if IsDue(t, today) then multiset(ts)[t] else 0
  {
    if |ts| > 0 {
      var init, last := ts[..|ts| - 1], ts[|ts| - 1];
      assert ts == init + [last];
      assert multiset(ts) == multiset(init) + multiset{last};
      DueTasksCounts(init, today);
    }
  }

  /** Completed tasks and tasks without a due date are never due. */
  lemma DueTasksExclude(ts: seq<Task>, today: Date)
    requires ValidDate(today)
    ensures forall t :: t in DueTasks(ts, today) ==> !t.completed && Truthy(t.dueDate)
  {
  }

  /** `overdue`: the due tasks of an earlier day. */
  function OverdueTasks(ts: seq<Task>, today: Date): (r: seq<Task>)
    requires ValidDate(today)
    ensures IsSubsequence(r, ts)
    ensures forall t :: t in r <==> t in ts && Truthy(t.dueDate) && IsPastDay(t.dueDate.value, today)
  {
    if |ts| == 0 then []
    else
      var init, last := ts[..|ts| - 1], ts[|ts| - 1];
      assert ts == init + [last];
      if Truthy(last.dueDate) && IsPastDay(last.dueDate.value, today) then OverdueTasks(init, today) + [last]
      else OverdueTasks(init, today)
  }

  /** `OverdueTasks` keeps each task that passes as many times as `ts` holds it, and no other. */
  lemma {:induction false} OverdueTasksCounts(ts: seq<Task>, today: Date)
    requires ValidDate(today)
    ensures forall t :: multiset(OverdueTasks(ts, today))[t] == if Truthy(t.dueDate) && IsPastDay(t.dueDate.value, today) then multiset(ts)[t] else 0
  {
    if |ts| > 0 {
      var init, last := ts[..|ts| - 1], ts[|ts| - 1];
      assert ts == init + [last];
      assert multiset(ts) == multiset(init) + multiset{last};
      OverdueTasksCounts(init, today);
    }
  }

  /** `todayTasks`: the due tasks of today. */
  function TodayTasks(ts: seq<Task>, today: Date): (r: seq<Task>)
    requires ValidDate(today)
    ensures IsSubsequence(r, ts)
    ensures forall t :: t in r <==> t in ts && Truthy(t.dueDate) && IsToday(t.dueDate.value, today)
  {
    if |ts| == 0 then []
    else
      var init, last := ts[..|ts| - 1], ts[|ts| - 1];
      assert ts == init + [last];
      if Truthy(last.dueDate) && IsToday(last.dueDate.value, today) then TodayTasks(init, today) + [last]
      else TodayTasks(init, today)
  }

  /** `TodayTasks` keeps each task that passes as many times as `ts` holds it, and no other. */
  lemma {:induction false} TodayTasksCounts(ts: seq<Task>, today: Date)
    requires ValidDate(today)
    ensures forall t :: multiset(TodayTasks(ts, today))[t] == if Truthy(t.dueDate) && IsToday(t.dueDate.value, today) then multiset(ts)[t] else 0
  {
    if |ts| > 0 {
      var init, last := ts[..|ts| - 1], ts[|ts| - 1];
      assert ts == init + [last];
      assert multiset(ts) == multiset(init) + multiset{last};
      TodayTasksCounts(init, today);
    }
  }

  /** No task is both overdue and due today. */
  lemma OverdueTodayDisjoint(ts: seq<Task>, today: Date)
    requires ValidDate(today)
    ensures forall t :: t in OverdueTasks(ts, today) ==> t !in TodayTasks(ts, today)
  {
  }

  /** Every due task is overdue or due today, exactly one of them: the two counts add up to the due count. */
  lemma {:induction false} OverdueTodayCover(ts: seq<Task>, today: Date)
    requires ValidDate(today)
    requires forall t :: t in ts ==> IsDue(t, today)
    ensures |OverdueTasks(ts, today)| + |TodayTasks(ts, today)| == |ts|
  {
    if |ts| > 0 {
      var init, last := ts[..|ts| - 1], ts[|ts| - 1];
      assert forall t :: t in init ==> t in ts;
      OverdueTodayCover(init, today);
      assert IsDue(last, today);
      var past := Truthy(last.dueDate) && IsPastDay(last.dueDate.value, today);
      var now := Truthy(last.dueDate) && IsToday(last.dueDate.value, today);
      assert past != now;
      assert |OverdueTasks(ts, today)| == |OverdueTasks(init, today)| + (if past then 1 else 0);
      assert |TodayTasks(ts, today)| == |TodayTasks(init, today)| + (if now then 1 else 0);
    }
  }

  /** The overdue and today split of `dueTasks` covers all of it. */
  lemma DueTasksSplit(ts: seq<Task>, today: Date)
    requires ValidDate(today)
    ensures var due := DueTasks(ts, today);
      |OverdueTasks(due, today)| + |TodayTasks(due, today)| == |due|
  {
    OverdueTodayCover(DueTasks(ts, today), today);
  }

  // ---------------------------------------------------------------------------
  // The notification text

  /** `${n} overdue task${n > 1 ? 's' : ''}`: the count's numeral first, then "s" last exactly for more than one. */
  function OverduePart(n: nat): (p: string)
    ensures |NatToString(n)| < |p| && p[..|NatToString(n)|] == NatToString(n)
    ensures p[|p| - 1] == 's' <==> n > 1
  {
    var p := NatToString(n) + " overdue task" + (if n > 1 then "s" else "");
    assert p[..|NatToString(n)|] == NatToString(n);
    p
  }

  /** `${m} task${m > 1 ? 's' : ''} due today`: the count's numeral first, and " due today" last. */
  function TodayPart(m: nat): (p: string)
    ensures |NatToString(m)| < |p| && p[..|NatToString(m)|] == NatToString(m)
    ensures |p| >= 10 && p[|p| - 10..] == " due today"
  {
    var p := NatToString(m) + " task" + (if m > 1 then "s" else "") + " due today";
    assert p[..|NatToString(m)|] == NatToString(m);
    assert p[|p| - 10..] == " due today";
    p
  }

  /** The `parts` array: a part for each positive count, overdue first. */
  function Parts(overdue: nat, dueToday: nat): (parts: seq<string>)
    ensures |parts| == (if overdue > 0 then 1 else 0) + (if dueToday > 0 then 1 else 0)
    ensures overdue > 0 ==> parts[0] == OverduePart(overdue)
    ensures dueToday > 0 ==> parts[|parts| - 1] == TodayPart(dueToday)
  {
    (if overdue > 0 then [OverduePart(overdue)] else []) + (if dueToday > 0 then [TodayPart(dueToday)] else [])
  }

  /**
   * `Array.prototype.join`: the parts with the separator between neighbours.
   * The result starts with the first part and ends with the last; a single
   * part is the result itself, and no part gives the empty string.
   */
  function Join(parts: seq<string>, sep: string): (j: string)
    ensures |parts| == 0 ==> j == ""
    ensures |parts| == 1 ==> j == parts[0]
    ensures |parts| > 0 ==> |parts[0]| <= |j| && j[..|parts[0]|] == parts[0]
    ensures |parts| > 0 ==> var last := parts[|parts| - 1]; |last| <= |j| && j[|j| - |last|..] == last
  {
    if |parts| == 0 then ""
    else if |parts| == 1 then parts[0]
    else
      var init := parts[..|parts| - 1];
      var j := Join(init, sep) + sep + parts[|parts| - 1];
      assert init[0] == parts[0];
      assert j[..|parts[0]|] == Join(init, sep)[..|parts[0]|];
      j
  }

  /**
   * The notification body: empty exactly when nothing is overdue or due
   * today, opening with the overdue part and closing with the today part
   * whenever they are present.
   */
  function ReminderBody(overdue: nat, dueToday: nat): (b: string)
    ensures b == "" <==> overdue == 0 && dueToday == 0
    ensures overdue > 0 ==> var p := OverduePart(overdue); |p| <= |b| && b[..|p|] == p
    ensures dueToday > 0 ==> var p := TodayPart(dueToday); |p| <= |b| && b[|b| - |p|..] == p
  {
    var parts := Parts(overdue, dueToday);
    assert |parts| > 0 ==> |parts[0]| > 0;
    Join(parts, " and ")
  }

  /** The body in each case: both parts joined by " and ", one part alone, or nothing. */
  lemma ReminderBodyCases(overdue: nat, dueToday: nat)
    ensures overdue > 0 && dueToday > 0 ==>
      ReminderBody(overdue, dueToday) == OverduePart(overdue) + " and " + TodayPart(dueToday)
    ensures overdue > 0 && dueToday == 0 ==> ReminderBody(overdue, dueToday) == OverduePart(overdue)
    ensures overdue == 0 && dueToday > 0 ==> ReminderBody(overdue, dueToday) == TodayPart(dueToday)
    ensures overdue == 0 && dueToday == 0 ==> ReminderBody(overdue, dueToday) == ""
  {
    var parts := Parts(overdue, dueToday);
    if overdue > 0 && dueToday > 0 {
      assert parts == [OverduePart(overdue), TodayPart(dueToday)];
      assert parts[..1] == [OverduePart(overdue)];
      assert Join(parts[..1], " and ") == OverduePart(overdue);
    }
  }

  /** The overdue part starts with the count, read back from its digits, and ends in "s" exactly when the count exceeds one. */
  lemma OverduePartShape(n: nat)
    ensures var p, w := OverduePart(n), |NatToString(n)|;
      w < |p| && AllDigits(p[..w]) && StringToNat(p[..w]) == n && p[w] == ' ' &&
      (p[|p| - 1] == 's' <==> n > 1)
  {
    var p, w := OverduePart(n), |NatToString(n)|;
    assert p[..w] == NatToString(n);
    StringToNatOfNatToString(n);
  }

  /** The today part starts with the count and says "tasks" exactly when the count exceeds one. */
  lemma TodayPartShape(m: nat)
    ensures var p, w := TodayPart(m), |NatToString(m)|;
      w < |p| && AllDigits(p[..w]) && StringToNat(p[..w]) == m && p[w] == ' ' &&
      (m > 1 ==> p[w..] == " tasks due today") && (m <= 1 ==> p[w..] == " task due today")
  {
    TodayPartText(m);
    StringToNatOfNatToString(m);
    SplitAfter(NatToString(m), if m > 1 then " tasks due today" else " task due today");
  }

  /** The today part is the numeral, then the words in the singular or the plural. */
  lemma TodayPartText(m: nat)
    ensures TodayPart(m) == NatToString(m) + (if m > 1 then " tasks due today" else " task due today")
  {
    if m > 1 {
      assert " task" + "s" + " due today" == " tasks due today";
    } else {
      assert " task" + "" + " due today" == " task due today";
    }
  }

  /** Cutting a concatenation where its first part ends. */
  lemma SplitAfter(a: string, b: string)
    ensures (a + b)[..|a|] == a && (a + b)[|a|..] == b
  {
  }

  /** When some task is due, the body is not empty. */
  lemma ReminderBodyNotEmpty(ts: seq<Task>, today: Date)
    requires ValidDate(today)
    requires |DueTasks(ts, today)| > 0
    ensures var due := DueTasks(ts, today);
      ReminderBody(|OverdueTasks(due, today)|, |TodayTasks(due, today)|) != ""
  {
    var due := DueTasks(ts, today);
    DueTasksSplit(ts, today);
    var n, m := |OverdueTasks(due, today)|, |TodayTasks(due, today)|;
    ReminderBodyCases(n, m);
    if n > 0 {
      OverduePartShape(n);
      if m > 0 {
        assert |ReminderBody(n, m)| >= |OverduePart(n)|;
      }
    } else {
      TodayPartShape(m);
    }
  }

  /** The title every reminder carries. */
  const ReminderTitle := "Task Reminder"

  /** A notification shown: its title and its body. */
  datatype Notification = Notification(title: string, body: string)

  /** The hook's two flags; both only ever go from false to true. */
  class Reminders {
    var dismissed: bool
    var notified: bool

    /** Both flags start false. */
    constructor()
      ensures !dismissed && !notified
    {
      dismissed := false;
      notified := false;
    }

    /** `dismiss`: sets `dismissed` and nothing else. */
    method Dismiss()
      modifies this
      ensures dismissed && notified == old(notified)
    {
      dismissed := true;
    }

    /**
     * One run of the effect over `tasks`: with something due and no earlier
     * attempt it sets `notified` first, then shows a notification when the
     * browser has them and permission is granted. The result is the
     * notification shown, if one is.
     */
    method RunEffect(tasks: seq<Task>, today: Date, supported: bool, granted: bool) returns (shown: Option<Notification>)
      requires ValidDate(today)
      modifies this
      ensures dismissed == old(dismissed)
      ensures notified == (old(notified) || |DueTasks(tasks, today)| > 0)
      ensures shown.Some? <==> !old(notified) && |DueTasks(tasks, today)| > 0 && supported && granted
      ensures shown.Some? ==>
        var due := DueTasks(tasks, today);
        shown.value == Notification(ReminderTitle, ReminderBody(|OverdueTasks(due, today)|, |TodayTasks(due, today)|))
    {
      var due := DueTasks(tasks, today);
      if |due| == 0 || notified {
        return None;
      }
      notified := true;
      if !supported || !granted {
        return None;
      }
      var overdue := OverdueTasks(due, today);
      var dueToday := TodayTasks(due, today);
      return Some(Notification(ReminderTitle, ReminderBody(|overdue|, |dueToday|)));
    }
  }
}
