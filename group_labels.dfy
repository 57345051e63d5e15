/**
 * `DUE_GROUP_CONFIG` of src/utils/groupByDueDate.ts: the heading and the
 * two colour classes each due-date group is shown with.
 */
module GroupLabels {
  import opened Types

  /** The header text and the two colour classes of a group. */
  datatype GroupConfig = GroupConfig(heading: string, textColor: string, dotColor: string)

  /** `DUE_GROUP_CONFIG`: one entry for every key, a heading with a text and a background colour class. */
  function DueGroupConfig(k: DueGroupKey): (c: GroupConfig)
    ensures |c.heading| > 0
    ensures |c.textColor| > 5 && c.textColor[..5] == "text-"
    ensures |c.dotColor| > 3 && c.dotColor[..3] == "bg-"
  {
    match k
    case Overdue => GroupConfig("Overdue", "text-red-600", "bg-red-500")
    case Today => GroupConfig("Due Today", "text-amber-600", "bg-amber-500")
    case ThisWeek => GroupConfig("Due This Week", "text-blue-600", "bg-blue-500")
    case NextWeek => GroupConfig("Due Next Week", "text-indigo-600", "bg-indigo-500")
    case ThisMonth => GroupConfig("Due This Month", "text-violet-600", "bg-violet-500")
    case ThisYear => GroupConfig("Due This Year", "text-gray-600", "bg-gray-400")
    case Later => GroupConfig("Later", "text-gray-500", "bg-gray-300")
    case NoDate => GroupConfig("No Due Date", "text-gray-400", "bg-gray-200")
    case Completed => GroupConfig("Completed", "text-gray-400", "bg-gray-200")
  }

  /** Every key has a header of its own. */
  lemma DueGroupLabelsDistinct(k1: DueGroupKey, k2: DueGroupKey)
    requires k1 != k2
    ensures DueGroupConfig(k1).heading != DueGroupConfig(k2).heading
  {
  }
}
