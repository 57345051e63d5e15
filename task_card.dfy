/**
 * The due-date label of a task card (src/components/TaskCard.tsx) and the
 * red highlight of an overdue card. The label's text is `MMM d` in the
 * browser's locale; the model keeps the date it shows instead of the text.
 */
module TaskCard {
  import opened Wrappers
  import opened Calendar
  import opened IsoDate
  import opened Types
  import opened DueGroups
  import opened GroupByDueDate

  /**
   * The label `getDueDateInfo` picks: none, the plain date, "Overdue ·"
   * with the date, "Due today", or the RangeError `format` throws on the
   * Invalid Date of a malformed due date.
   */
  datatype DueDateInfo = NoLabel | PlainDate(date: Date) | OverdueDate(date: Date) | DueToday | FormatThrows

  /** The class name of a shown label: red text exactly for the overdue label, amber for today's. */
  function LabelClass(info: DueDateInfo): (c: string)
    requires info.PlainDate? || info.OverdueDate? || info.DueToday?
    ensures c == "text-red-500 font-medium" <==> info.OverdueDate?
    ensures c == "text-amber-500 font-medium" <==> info.DueToday?
  {
    match info
    case PlainDate(_) => "text-gray-400"
    case OverdueDate(_) => "text-red-500 font-medium"
    case DueToday => "text-amber-500 font-medium"
  }

  /** `getDueDateInfo`. */
  function GetDueDateInfo(t: Task, today: Date): (info: DueDateInfo)
    requires ValidDate(today)
    ensures info.NoLabel? <==> !Truthy(t.dueDate)
    ensures info.FormatThrows? <==> Truthy(t.dueDate) && Parse(t.dueDate.value).None?
    ensures info.PlainDate? || info.OverdueDate? ==> Parse(t.dueDate.value) == Some(info.date)
    ensures info.OverdueDate? ==> !t.completed && DayNumber(info.date) < DayNumber(today)
    ensures info.DueToday? ==> !t.completed && Parse(t.dueDate.value) == Some(today)
    ensures t.completed ==> info.NoLabel? || info.PlainDate? || info.FormatThrows?
  {
    if !Truthy(t.dueDate) then NoLabel
    else
      var date := Parse(t.dueDate.value);
      if t.completed then (if date.Some? then PlainDate(date.value) else FormatThrows)
      else if IsPastDay(t.dueDate.value, today) then OverdueDate(date.value)
      else if IsToday(t.dueDate.value, today) then DueToday
      else if date.Some? then PlainDate(date.value)
      else FormatThrows
  }

  /** `isOverdue`: the card is highlighted red, exactly for an incomplete task the grouping files as overdue. */
  predicate IsOverdue(t: Task, today: Date): (red: bool)
    requires ValidDate(today)
    ensures red <==> !t.completed && GetDueGroupKey(t.dueDate, today) == Overdue
  {
    Truthy(t.dueDate) && !t.completed && IsPastDay(t.dueDate.value, today)
  }

  /** An incomplete task's label by its day: overdue before today, "Due today" today, the plain date after. */
  lemma IncompleteLabelByDay(t: Task, today: Date)
    requires ValidDate(today) && !t.completed && Truthy(t.dueDate) && Parse(t.dueDate.value).Some?
    ensures var d, info := Parse(t.dueDate.value).value, GetDueDateInfo(t, today);
      (DayNumber(d) < DayNumber(today) ==> info == OverdueDate(d)) &&
      (d == today ==> info == DueToday) &&
      (DayNumber(today) < DayNumber(d) ==> info == PlainDate(d))
  {
    DayNumberOrder(Parse(t.dueDate.value).value, today);
  }

  /** The card is red exactly when its label is the overdue label, which is the label written in red. */
  lemma RedExactlyWhenOverdueLabel(t: Task, today: Date)
    requires ValidDate(today)
    ensures IsOverdue(t, today) <==> GetDueDateInfo(t, today).OverdueDate?
    ensures var info := GetDueDateInfo(t, today);
      IsOverdue(t, today) <==>
        (info.PlainDate? || info.OverdueDate? || info.DueToday?) && LabelClass(info) == "text-red-500 font-medium"
  {
  }

  /** For an incomplete task the card agrees with the grouping on `overdue` and on `today`. */
  lemma LabelAgreesWithGroupKey(t: Task, today: Date)
    requires ValidDate(today) && !t.completed
    ensures GetDueDateInfo(t, today).OverdueDate? <==> GetDueGroupKey(t.dueDate, today) == Overdue
    ensures GetDueDateInfo(t, today).DueToday? <==> GetDueGroupKey(t.dueDate, today) == Today
  {
  }

  /** A completed task never gets the overdue or today label and is never red. */
  lemma CompletedNeverFlagged(t: Task, today: Date)
    requires ValidDate(today) && t.completed
    ensures !GetDueDateInfo(t, today).OverdueDate? && !GetDueDateInfo(t, today).DueToday?
    ensures !IsOverdue(t, today)
  {
  }
}
