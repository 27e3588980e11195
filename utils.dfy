/**
 * The card decorations: the due-status badge, the urgency CSS class and the
 * status and priority colours.
 *
 * The clock is a parameter: `nowSec` is the local wall-clock time in whole
 * seconds counted from midnight at the start of day ordinal 0, so midnight
 * of day ordinal o is `o * 86400` and today's ordinal is `nowSec / 86400`.
 */
module Utils {
  import opened Tasks
  import opened Strings

  const Gray := "#6b7280"
  const Red := "#ef4444"
  const Amber := "#f59e0b"
  const Green := "#10b981"
  const Blue := "#3b82f6"

  const SecondsPerDay := 86400

  /** get_status_color */
  function StatusColor(status: string): string {
    if status == ToDo then Blue
    else if status == InProgress then Amber
    else if status == Done then Green
    else if status == Blocked then Red
    else Gray
  }

  /** get_priority_color */
  function PriorityColor(priority: string): string {
    if priority == Critical then Red
    else if priority == High then Amber
    else if priority == Medium then Green
    else Gray   // Low has the same gray as an unknown priority
  }

  /** A status gets gray exactly when it is not one of the four; the four get four different colours. */
  lemma StatusColors(s: string, t: string)
    ensures StatusColor(s) == Gray <==> !KnownStatus(s)
    ensures KnownStatus(s) && KnownStatus(t) && s != t ==> StatusColor(s) != StatusColor(t)
  {
  }

  /** A priority outside Critical, High and Medium is gray, Low included; those three differ. */
  lemma PriorityColors(p: string, q: string)
    ensures PriorityColor(p) == Gray <==> !(p == Critical || p == High || p == Medium)
    ensures !KnownPriority(p) ==> PriorityColor(p) == Gray
    ensures p != q && PriorityColor(p) != Gray && PriorityColor(q) != Gray ==> PriorityColor(p) != PriorityColor(q)
  {
  }

  // ---------------------------------------------------------------------
  // calculate_due_status

  /** The `display` entry of the badge, by its parts. */
  datatype Display =
    | NoDisplay                             // the dictionary has no display entry
    | Today                                 // "Today"
    | OnDate(day: int)                      // the formatted due date
    | TimeToday(minute: Minute)             // "<time> • Today"
    | TimeOnDate(minute: Minute, day: int)  // "<time> • <formatted date>"
    | Raw(date: DateField)                  // the due date argument as given

  datatype DueStatus = DueStatus(color: string, text: string, days: Option<int>, display: Display)

  /** A due time that is present but not HH:MM makes the parse raise. */
  predicate BadTimeGiven(t: TimeField) {
    t.BadTime? && t.raw != ""
  }

  function DueInDays(n: int): string {
    "Due in " + ShowInt(n) + " days"
  }

  /** The badge without a due time: whole days between the due date and today. */
  function DateOnlyStatus(d: int, today: int): DueStatus {
    var days := d - today;
    if days < 0 then DueStatus(Red, "Overdue", Some(-days), OnDate(d))
    else if days == 0 then DueStatus(Amber, "Due Today", Some(0), Today)
    else if days <= 2 then DueStatus(Amber, DueInDays(days), Some(days), OnDate(d))
    else DueStatus(Green, DueInDays(days), Some(days), OnDate(d))
  }

  /** The badge with a due time: the exact due instant against the clock. */
  function TimedStatus(d: int, m: Minute, nowSec: int): DueStatus {
    var today := nowSec / SecondsPerDay;
    var diff := d * SecondsPerDay + m * 60 - nowSec;
    if diff < 0 then DueStatus(Red, "Overdue", Some(-(diff / SecondsPerDay)), TimeOnDate(m, d))
    else if d == today then
      if diff < 3600 then DueStatus(Red, "Due in " + ShowInt(diff / 60) + " minutes!", Some(0), TimeToday(m))
      else DueStatus(Amber, "Due in " + ShowInt(diff / 3600) + " hours", Some(0), TimeToday(m))
    else
      var days := d - today;
      if days <= 2 then DueStatus(Amber, DueInDays(days), Some(days), TimeOnDate(m, d))
      else DueStatus(Green, DueInDays(days), Some(days), TimeOnDate(m, d))
  }

  /** calculate_due_status */
  function CalculateDueStatus(dueDate: DateField, dueTime: TimeField, nowSec: int): (r: DueStatus)
    ensures r.color == Gray <==> !dueDate.Day? || BadTimeGiven(dueTime)
    ensures r.color == Gray ==> r.text == "" && r.days.None?
    ensures r.color == Gray ==> r.display == (if dueDate.Absent? then NoDisplay else Raw(dueDate))
    ensures r.days.Some? ==> r.days.value >= 0
  {
    match dueDate
    case Absent => DueStatus(Gray, "", None, NoDisplay)
    case Text(_) => DueStatus(Gray, "", None, Raw(dueDate))
    case Day(d) =>
      match dueTime
      case At(m) => TimedStatus(d, m, nowSec)
      case BadTime(raw) =>
        if raw != "" then DueStatus(Gray, "", None, Raw(dueDate))
        else DateOnlyStatus(d, nowSec / SecondsPerDay)
      case NoTime => DateOnlyStatus(d, nowSec / SecondsPerDay)
  }

  /** An empty due-time string is falsy and takes the date-only branch, as a missing time does. */
  lemma EmptyTimeIsNoTime(dueDate: DateField, nowSec: int)
    ensures CalculateDueStatus(dueDate, BadTime(""), nowSec) == CalculateDueStatus(dueDate, NoTime, nowSec)
  {
  }

  /** Without a due time the badge depends on the whole-day difference from today only. */
  lemma DateOnlyBands(d: int, t: TimeField, nowSec: int)
    requires !TimeGiven(t)
    ensures var r, days := CalculateDueStatus(Day(d), t, nowSec), d - nowSec / SecondsPerDay;
      && (r.color == Red <==> days < 0)
      && (r.color == Amber <==> 0 <= days <= 2)
      && (r.color == Green <==> days > 2)
      && (days < 0 ==> r.text == "Overdue" && r.days == Some(-days))
      && (days == 0 <==> r.text == "Due Today")
      && (days == 0 ==> r.display == Today)
      && (days > 0 ==> r.text == DueInDays(days) && r.days == Some(days))
  {
    var days := d - nowSec / SecondsPerDay;
    if days > 0 {
      assert DueInDays(days) != "Due Today" by {
        assert DueInDays(days)[4] == 'i' && "Due Today"[4] == 'T';
      }
    }
  }

  /**
   * A missed timed deadline reports the elapsed whole days rounded up, as
   * `abs(timedelta.days)` does: anything late by at most one day reports 1.
   */
  lemma TimedOverdueDays(d: int, m: Minute, nowSec: int)
    requires d * SecondsPerDay + m * 60 < nowSec
    ensures var r, late := CalculateDueStatus(Day(d), At(m), nowSec), nowSec - (d * SecondsPerDay + m * 60);
      && r.color == Red && r.text == "Overdue" && r.days.Some?
      && (r.days.value - 1) * SecondsPerDay < late <= r.days.value * SecondsPerDay
      && (late <= SecondsPerDay ==> r.days == Some(1))
  {
  }

  /** On the due day, under an hour left counts in minutes and is red; otherwise whole hours, amber. */
  lemma TimedDueToday(d: int, m: Minute, nowSec: int)
    requires d == nowSec / SecondsPerDay && nowSec <= d * SecondsPerDay + m * 60
    ensures var r, left := CalculateDueStatus(Day(d), At(m), nowSec), d * SecondsPerDay + m * 60 - nowSec;
      && r.days == Some(0) && r.display == TimeToday(m)
      && (left < 3600 ==> r.color == Red && r.text == "Due in " + ShowNat(left / 60) + " minutes!" && left / 60 < 60)
      && (left >= 3600 ==> r.color == Amber && r.text == "Due in " + ShowNat(left / 3600) + " hours" && 1 <= left / 3600 < 24)
  {
  }

  /** A timed deadline still ahead on a later day is at least one day away. */
  lemma TimedLaterDay(d: int, m: Minute, nowSec: int)
    requires d != nowSec / SecondsPerDay && nowSec <= d * SecondsPerDay + m * 60
    ensures var r, days := CalculateDueStatus(Day(d), At(m), nowSec), d - nowSec / SecondsPerDay;
      && days >= 1 && r.days == Some(days) && r.text == DueInDays(days)
      && (r.color == Amber <==> days <= 2) && (r.color == Green <==> days > 2)
  {
    var today := nowSec / SecondsPerDay;
    assert today * SecondsPerDay <= nowSec;
    assert d * SecondsPerDay + m * 60 < (d + 1) * SecondsPerDay;
  }

  /** How alarming a badge colour is. */
  function Severity(color: string): nat {
    if color == Red then 3 else if color == Amber then 2 else if color == Green then 1 else 0
  }

  /** Without a due time, a later due date never looks more urgent. */
  lemma DateOnlyMonotone(d1: int, d2: int, t: TimeField, nowSec: int)
    requires !TimeGiven(t) && d1 <= d2
    ensures Severity(CalculateDueStatus(Day(d1), t, nowSec).color) >= Severity(CalculateDueStatus(Day(d2), t, nowSec).color)
  {
  }

  /** With due times, a later due instant never looks more urgent. */
  lemma TimedMonotone(d1: int, m1: Minute, d2: int, m2: Minute, nowSec: int)
    requires d1 * SecondsPerDay + m1 * 60 <= d2 * SecondsPerDay + m2 * 60
    ensures Severity(CalculateDueStatus(Day(d1), At(m1), nowSec).color) >= Severity(CalculateDueStatus(Day(d2), At(m2), nowSec).color)
  {
    var today := nowSec / SecondsPerDay;
    var diff1 := d1 * SecondsPerDay + m1 * 60 - nowSec;
    if diff1 >= 0 {
      assert today * SecondsPerDay <= nowSec < (today + 1) * SecondsPerDay;
      assert d1 >= today;
      assert d1 <= d2 by {
        assert d1 * SecondsPerDay < (d2 + 1) * SecondsPerDay;
      }
    }
  }

  // ---------------------------------------------------------------------
  // get_urgency_class

  /** get_urgency_class: the card's CSS class by whole days to the due date; the due time is ignored. */
  function UrgencyClass(dueDate: DateField, nowSec: int): string {
    match dueDate
    case Day(d) =>
      var days := d - nowSec / SecondsPerDay;
      if days < 0 then "task-urgent" else if days <= 2 then "task-soon" else "task-future"
    case _ => ""
  }

  /**
   * The urgency class and the date-only badge agree: red is urgent, amber
   * is soon, green is future, gray is no class.
   */
  lemma UrgencyAgreesWithBadge(dueDate: DateField, t: TimeField, nowSec: int)
    requires !TimeGiven(t)
    ensures var c, u := CalculateDueStatus(dueDate, t, nowSec).color, UrgencyClass(dueDate, nowSec);
      && (c == Red <==> u == "task-urgent")
      && (c == Amber <==> u == "task-soon")
      && (c == Green <==> u == "task-future")
      && (c == Gray <==> u == "")
  {
  }

  /** With a due time the two can disagree: a deadline missed earlier today is red but only "task-soon". */
  lemma UrgencyIgnoresTime()
    ensures CalculateDueStatus(Day(10), At(60), 10 * SecondsPerDay + 7200).color == Red
    ensures UrgencyClass(Day(10), 10 * SecondsPerDay + 7200) == "task-soon"
  {
  }

  // ---------------------------------------------------------------------
  // Worked examples; the clock is ten hours into day 1000

  const Morning := 1000 * SecondsPerDay + 36000

  lemma ExampleYesterday()
    ensures CalculateDueStatus(Day(999), NoTime, Morning) == DueStatus(Red, "Overdue", Some(1), OnDate(999))
  {
  }

  lemma ExampleToday()
    ensures CalculateDueStatus(Day(1000), NoTime, Morning) == DueStatus(Amber, "Due Today", Some(0), Today)
  {
  }

  lemma ExampleInTwoAndThreeDays()
    ensures CalculateDueStatus(Day(1002), NoTime, Morning) == DueStatus(Amber, "Due in 2 days", Some(2), OnDate(1002))
    ensures CalculateDueStatus(Day(1003), NoTime, Morning) == DueStatus(Green, "Due in 3 days", Some(3), OnDate(1003))
  {
    assert ShowInt(2) == "2" && ShowInt(3) == "3";
  }

  lemma ExampleThirtyMinutes()
    ensures CalculateDueStatus(Day(1000), At(630), Morning) == DueStatus(Red, "Due in 30 minutes!", Some(0), TimeToday(630))
  {
    assert Morning == 86436000 && Morning / SecondsPerDay == 1000;
    assert 1000 * SecondsPerDay + 630 * 60 - Morning == 1800;
    assert ShowInt(1800 / 60) == "30" by {
      assert 1800 / 60 == 30;
      assert ShowNat(3) == "3";
    }
    assert TimedStatus(1000, 630, Morning) == DueStatus(Red, "Due in 30 minutes!", Some(0), TimeToday(630));
  }
}
