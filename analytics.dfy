/**
 * The dashboard's headline numbers: how many tasks there are, how many sit
 * in each status and each priority, how many are overdue and how many fall
 * due within the next three days. Today is a day ordinal given by the
 * caller.
 */
module Analytics {
  import opened Tasks
  import opened Database

  /** One of the row conditions the dashboard counts. */
  datatype Tally =
    | StatusIs(status: string)
    | OtherStatus                 // a status outside the four board columns
    | PriorityIs(priority: string)
    | OtherPriority               // a priority outside the four levels
    | OverdueOn(today: int)       // due date before today
    | DueSoonFrom(today: int)     // today <= due date <= today + 3
    | NotDueNear(today: int)      // no due date, or one after today + 3

  predicate Counts(k: Tally, t: Task) {
    match k
    case StatusIs(s) => t.status == s
    case OtherStatus => !KnownStatus(t.status)
    case PriorityIs(p) => t.priority == p
    case OtherPriority => !KnownPriority(t.priority)
    case OverdueOn(d) => DueDay(t).Some? && DueDay(t).value < d
    case DueSoonFrom(d) => DueDay(t).Some? && d <= DueDay(t).value <= d + 3
    case NotDueNear(d) => DueDay(t).None? || DueDay(t).value > d + 3
  }

  /** `len(df[condition])` */
  function CountWhere(rows: seq<Task>, k: Tally): (n: nat)
    ensures n <= |rows|
  {
    if |rows| == 0 then 0
    else CountWhere(rows[..|rows| - 1], k) + (if Counts(k, rows[|rows| - 1]) then 1 else 0)
  }

  datatype ByStatus = ByStatus(toDo: nat, inProgress: nat, done: nat, blocked: nat)
  datatype ByPriority = ByPriority(critical: nat, high: nat, medium: nat, low: nat)
  datatype TaskCounts = TaskCounts(total: nat, byStatus: ByStatus, byPriority: ByPriority, overdue: nat, dueSoon: nat)

  /** generate_task_counts */
  function GenerateTaskCounts(rows: seq<Task>, today: int): (c: TaskCounts)
    ensures c.total == |rows|
  {
    TaskCounts(
      |rows|,
      ByStatus(CountWhere(rows, StatusIs(ToDo)), CountWhere(rows, StatusIs(InProgress)),
               CountWhere(rows, StatusIs(Done)), CountWhere(rows, StatusIs(Blocked))),
      ByPriority(CountWhere(rows, PriorityIs(Critical)), CountWhere(rows, PriorityIs(High)),
                 CountWhere(rows, PriorityIs(Medium)), CountWhere(rows, PriorityIs(Low))),
      CountWhere(rows, OverdueOn(today)),
      CountWhere(rows, DueSoonFrom(today)))
  }

  function StatusSum(c: TaskCounts): nat {
    c.byStatus.toDo + c.byStatus.inProgress + c.byStatus.done + c.byStatus.blocked
  }

  function PrioritySum(c: TaskCounts): nat {
    c.byPriority.critical + c.byPriority.high + c.byPriority.medium + c.byPriority.low
  }

  /** The status counts say the same as the store's per-status count. */
  lemma {:induction false} StatusCountIsCountIn(rows: seq<Task>, s: string)
    ensures CountWhere(rows, StatusIs(s)) == CountIn(rows, s)
  {
    if |rows| > 0 {
      StatusCountIsCountIn(rows[..|rows| - 1], s);
    }
  }

  /** An empty frame gives zero everywhere. */
  lemma EmptyCounts(today: int)
    ensures GenerateTaskCounts([], today)
      == TaskCounts(0, ByStatus(0, 0, 0, 0), ByPriority(0, 0, 0, 0), 0, 0)
  {
  }

  /** Every row is in exactly one of the four statuses or none of them. */
  lemma {:induction false} StatusPartition(rows: seq<Task>, today: int)
    ensures StatusSum(GenerateTaskCounts(rows, today)) + CountWhere(rows, OtherStatus) == |rows|
  {
    if |rows| > 0 {
      StatusPartition(rows[..|rows| - 1], today);
    }
  }

  /** The four status counts add up to at most the total, and to the total when every status is known. */
  lemma StatusCountsCover(rows: seq<Task>, today: int)
    ensures StatusSum(GenerateTaskCounts(rows, today)) <= |rows|
    ensures (forall i :: 0 <= i < |rows| ==> KnownStatus(rows[i].status)) ==>
      StatusSum(GenerateTaskCounts(rows, today)) == |rows|
  {
    StatusPartition(rows, today);
    if forall i :: 0 <= i < |rows| ==> KnownStatus(rows[i].status) {
      NoneCounted(rows, OtherStatus);
    }
  }

  /** Every row is in exactly one of the four priorities or none of them. */
  lemma {:induction false} PriorityPartition(rows: seq<Task>, today: int)
    ensures PrioritySum(GenerateTaskCounts(rows, today)) + CountWhere(rows, OtherPriority) == |rows|
  {
    if |rows| > 0 {
      PriorityPartition(rows[..|rows| - 1], today);
    }
  }

  /** The four priority counts add up to at most the total, and to the total when every priority is known. */
  lemma PriorityCountsCover(rows: seq<Task>, today: int)
    ensures PrioritySum(GenerateTaskCounts(rows, today)) <= |rows|
    ensures (forall i :: 0 <= i < |rows| ==> KnownPriority(rows[i].priority)) ==>
      PrioritySum(GenerateTaskCounts(rows, today)) == |rows|
  {
    PriorityPartition(rows, today);
    if forall i :: 0 <= i < |rows| ==> KnownPriority(rows[i].priority) {
      NoneCounted(rows, OtherPriority);
    }
  }

  /** A condition no row meets counts zero. */
  lemma {:induction false} NoneCounted(rows: seq<Task>, k: Tally)
    requires forall i :: 0 <= i < |rows| ==> !Counts(k, rows[i])
    ensures CountWhere(rows, k) == 0
  {
    if |rows| > 0 {
      NoneCounted(rows[..|rows| - 1], k);
    }
  }

  /** Overdue, due soon and the rest split the rows, so the two windows never overlap. */
  lemma {:induction false} DueWindowsPartition(rows: seq<Task>, today: int)
    ensures CountWhere(rows, OverdueOn(today)) + CountWhere(rows, DueSoonFrom(today))
      + CountWhere(rows, NotDueNear(today)) == |rows|
  {
    if |rows| > 0 {
      DueWindowsPartition(rows[..|rows| - 1], today);
    }
  }

  lemma DueWindowsDisjoint(rows: seq<Task>, today: int)
    ensures GenerateTaskCounts(rows, today).overdue + GenerateTaskCounts(rows, today).dueSoon <= |rows|
  {
    DueWindowsPartition(rows, today);
  }

  /** The date counts depend on the due days alone: not on status, priority or due time. */
  lemma {:induction false} DueCountsByDayOnly(a: seq<Task>, b: seq<Task>, today: int)
    requires |a| == |b|
    requires forall i :: 0 <= i < |a| ==> DueDay(a[i]) == DueDay(b[i])
    ensures GenerateTaskCounts(a, today).overdue == GenerateTaskCounts(b, today).overdue
    ensures GenerateTaskCounts(a, today).dueSoon == GenerateTaskCounts(b, today).dueSoon
  {
    if |a| > 0 {
      DueCountsByDayOnly(a[..|a| - 1], b[..|b| - 1], today);
    }
  }

  /** Rows without a due date add to the total and to neither date count. */
  lemma {:induction false} UndatedRowsUncounted(rows: seq<Task>, extra: seq<Task>, today: int)
    requires forall i :: 0 <= i < |extra| ==> DueDay(extra[i]).None?
    ensures GenerateTaskCounts(rows + extra, today).total == |rows| + |extra|
    ensures GenerateTaskCounts(rows + extra, today).overdue == GenerateTaskCounts(rows, today).overdue
    ensures GenerateTaskCounts(rows + extra, today).dueSoon == GenerateTaskCounts(rows, today).dueSoon
  {
    if |extra| > 0 {
      var shorter := extra[..|extra| - 1];
      UndatedRowsUncounted(rows, shorter, today);
      assert (rows + extra)[..|rows + extra| - 1] == rows + shorter;
    } else {
      assert rows + extra == rows;
    }
  }
}
