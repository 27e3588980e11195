/**
 * The tasks table and its per-status position bookkeeping.
 *
 * The table is a sequence of rows in insertion (rowid) order. Each status
 * value names a partition, and `position` orders the rows inside it.
 * Inserting appends to the end of the partition, a status change closes
 * the gap in the old partition and appends to the new one, and a delete
 * closes the gap. `Dense` is the invariant "the positions of a partition
 * of N rows are exactly 1..N"; the lemmas below say which operations keep
 * it and which do not.
 */
module Database {
  import opened Tasks

  datatype Error =
    | RowNotFound     // `fetchone()` found no row and unpacking None raised
    | NotFormattable  // `strftime` was called on a due date or time that is None

  datatype Outcome = Success | Failure(error: Error)

  datatype Result<T> = Ok(value: T) | Err(error: Error)

  /** What the task form submits for one task. */
  datatype Fields = Fields(
    title: string,
    description: Option<string>,
    status: string,
    priority: string,
    dueDate: DateField,
    dueTime: TimeField,
    labels: Option<string>)

  /** Formatting the due date and time calls strftime on a non-string value; None has none. */
  predicate Formattable(f: Fields) {
    f.dueDate != Absent && f.dueTime != NoTime
  }

  // ---------------------------------------------------------------------
  // Partitions of a snapshot

  /** Number of rows whose status is s. */
  function CountIn(rows: seq<Task>, s: string): (n: nat)
    ensures n <= |rows|
  {
    if |rows| == 0 then 0
    else CountIn(rows[..|rows| - 1], s) + (if rows[|rows| - 1].status == s then 1 else 0)
  }

  /** `SELECT MAX(position) FROM tasks WHERE status = s`; None when no row has status s. */
  function MaxPosition(rows: seq<Task>, s: string): (m: Option<int>)
    ensures m.None? <==> forall i :: 0 <= i < |rows| ==> rows[i].status != s
    ensures m.Some? ==> exists i :: 0 <= i < |rows| && rows[i].status == s && rows[i].position == m.value
    ensures m.Some? ==> forall i :: 0 <= i < |rows| && rows[i].status == s ==> rows[i].position <= m.value
  {
    if |rows| == 0 then None
    else
      var front := rows[..|rows| - 1];
      var last := rows[|rows| - 1];
      var m := MaxPosition(front, s);
      assert forall i :: 0 <= i < |front| ==> front[i] == rows[i];
      if last.status != s then m
      else if m.Some? && m.value >= last.position then m
      else Some(last.position)
  }

  /** The position a row appended to partition s receives: 1 if it is empty, else max + 1. */
  function NextPosition(rows: seq<Task>, s: string): (p: int)
    ensures (forall i :: 0 <= i < |rows| ==> rows[i].status != s) ==> p == 1
    ensures forall i :: 0 <= i < |rows| && rows[i].status == s ==> rows[i].position < p
  {
    match MaxPosition(rows, s)
    case None => 1
    case Some(m) => m + 1
  }

  predicate HasPosition(rows: seq<Task>, s: string, q: int) {
    exists i :: 0 <= i < |rows| && rows[i].status == s && rows[i].position == q
  }

  /** Every row of partition s has a position in 1..n. */
  predicate InRange(rows: seq<Task>, s: string, n: int) {
    forall i :: 0 <= i < |rows| && rows[i].status == s ==> 1 <= rows[i].position <= n
  }

  /** No two rows of partition s share a position. */
  predicate Distinct(rows: seq<Task>, s: string) {
    forall i, j :: 0 <= i < j < |rows| && rows[i].status == s && rows[j].status == s ==>
      rows[i].position != rows[j].position
  }

  /** Every position in 1..n is held by some row of partition s. */
  predicate Covers(rows: seq<Task>, s: string, n: int) {
    forall q :: 1 <= q <= n ==> HasPosition(rows, s, q)
  }

  /** The positions of partition s are exactly 1..N, each once, where N is its size. */
  predicate Dense(rows: seq<Task>, s: string) {
    var n := CountIn(rows, s);
    InRange(rows, s, n) && Distinct(rows, s) && Covers(rows, s, n)
  }

  predicate UniqueIds(rows: seq<Task>) {
    forall i, j :: 0 <= i < j < |rows| ==> rows[i].id != rows[j].id
  }

  /** Index of the first row with the given id. */
  function IndexOf(rows: seq<Task>, id: int): (k: Option<nat>)
    ensures k.None? <==> forall i :: 0 <= i < |rows| ==> rows[i].id != id
    ensures k.Some? ==> k.value < |rows| && rows[k.value].id == id
    ensures k.Some? ==> forall i :: 0 <= i < k.value ==> rows[i].id != id
  {
    if |rows| == 0 then None
    else if rows[0].id == id then Some(0)
    else match IndexOf(rows[1..], id)
      case None => None
      case Some(j) => Some(j + 1)
  }

  // ---------------------------------------------------------------------
  // The table after each statement

  /** `position = position - 1` for the rows of status s above position p. */
  function ShiftedRow(t: Task, s: string, p: int): Task {
    if t.status == s && t.position > p then t.(position := t.position - 1) else t
  }

  function ShiftAll(rows: seq<Task>, s: string, p: int): (r: seq<Task>)
    ensures |r| == |rows|
  {
    seq(|rows|, i requires 0 <= i < |rows| => ShiftedRow(rows[i], s, p))
  }

  /** The row add_task inserts. */
  function NewRow(id: int, f: Fields, position: int, parentId: Option<int>, now: int): Task {
    Task(id, f.title, f.description, f.status, f.priority, now, f.dueDate, f.dueTime,
         position, f.labels, parentId, now)
  }

  /** The table after update_task_status moves the row at index k to status ns. */
  function MoveRows(rows: seq<Task>, k: nat, ns: string, now: int): (r: seq<Task>)
    requires k < |rows|
    ensures |r| == |rows|
  {
    var t := rows[k];
    var np := NextPosition(rows, ns);
    ShiftAll(rows, t.status, t.position)[k := t.(status := ns, position := np, lastUpdated := now)]
  }

  /** The table after delete_task removes the row at index k. */
  function DeleteRows(rows: seq<Task>, k: nat): (r: seq<Task>)
    requires k < |rows|
    ensures |r| == |rows| - 1
  {
    var sh := ShiftAll(rows, rows[k].status, rows[k].position);
    sh[..k] + sh[k + 1..]
  }

  /** A row after update_task: every field the form carries is overwritten, position is not. */
  function Edited(t: Task, f: Fields, now: int): Task {
    t.(title := f.title, description := f.description, status := f.status,
       priority := f.priority, dueDate := f.dueDate, dueTime := f.dueTime,
       labels := f.labels, lastUpdated := now)
  }

  function EditRows(rows: seq<Task>, id: int, f: Fields, now: int): (r: seq<Task>)
    ensures |r| == |rows|
  {
    seq(|rows|, i requires 0 <= i < |rows| => if rows[i].id == id then Edited(rows[i], f, now) else rows[i])
  }

  // ---------------------------------------------------------------------
  // Counting lemmas

  lemma {:induction false} CountSameStatuses(a: seq<Task>, b: seq<Task>, s: string)
    requires |a| == |b|
    requires forall i :: 0 <= i < |a| ==> (a[i].status == s <==> b[i].status == s)
    ensures CountIn(a, s) == CountIn(b, s)
  {
    if |a| > 0 {
      CountSameStatuses(a[..|a| - 1], b[..|b| - 1], s);
    }
  }

  lemma {:induction false} CountUpdate(a: seq<Task>, k: nat, t: Task, s: string)
    requires k < |a|
    ensures CountIn(a[k := t], s)
         == CountIn(a, s) - (if a[k].status == s then 1 else 0) + (if t.status == s then 1 else 0)
  {
    var n := |a|;
    if k == n - 1 {
      assert a[k := t][..n - 1] == a[..n - 1];
    } else {
      assert a[k := t][..n - 1] == a[..n - 1][k := t];
      CountUpdate(a[..n - 1], k, t, s);
    }
  }

  lemma {:induction false} CountRemove(a: seq<Task>, k: nat, s: string)
    requires k < |a|
    ensures CountIn(a[..k] + a[k + 1..], s) == CountIn(a, s) - (if a[k].status == s then 1 else 0)
  {
    var n := |a|;
    if k == n - 1 {
      assert a[..k] + a[k + 1..] == a[..n - 1];
    } else {
      var b := a[..k] + a[k + 1..];
      assert b[..|b| - 1] == a[..n - 1][..k] + a[..n - 1][k + 1..];
      CountRemove(a[..n - 1], k, s);
    }
  }

  /** A partition is empty exactly when its count is zero. */
  lemma {:induction false} CountZero(rows: seq<Task>, s: string)
    ensures CountIn(rows, s) == 0 <==> forall i :: 0 <= i < |rows| ==> rows[i].status != s
  {
    if |rows| > 0 {
      var front := rows[..|rows| - 1];
      CountZero(front, s);
      assert forall i :: 0 <= i < |front| ==> front[i] == rows[i];
    }
  }

  /** In a dense partition of N rows the next position is N + 1. */
  lemma NextPositionDense(rows: seq<Task>, s: string)
    requires Dense(rows, s)
    ensures NextPosition(rows, s) == CountIn(rows, s) + 1
  {
    var n := CountIn(rows, s);
    CountZero(rows, s);
    if n > 0 {
      assert HasPosition(rows, s, n);
    }
  }

  // ---------------------------------------------------------------------
  // Which operations keep partitions dense

  /** add_task keeps every dense partition dense. */
  lemma AddKeepsDense(rows: seq<Task>, t: Task, s: string)
    requires t.position == NextPosition(rows, t.status)
    requires Dense(rows, s)
    ensures Dense(rows + [t], s)
  {
    var r := rows + [t];
    assert r[..|r| - 1] == rows;
    var n := CountIn(rows, s);
    if t.status == s {
      NextPositionDense(rows, s);
      forall q | 1 <= q <= n + 1
        ensures HasPosition(r, s, q)
      {
        if q == n + 1 {
          assert r[|rows|].position == q;
        } else {
          assert HasPosition(rows, s, q);
          var w :| 0 <= w < |rows| && rows[w].status == s && rows[w].position == q;
          assert r[w] == rows[w];
        }
      }
    } else {
      forall q | 1 <= q <= n
        ensures HasPosition(r, s, q)
      {
        assert HasPosition(rows, s, q);
        var w :| 0 <= w < |rows| && rows[w].status == s && rows[w].position == q;
        assert r[w] == rows[w];
      }
    }
  }

  /** Where each row of the table after a delete comes from. */
  lemma DeleteRowAt(rows: seq<Task>, k: nat, i: nat)
    requires k < |rows| && i < |rows| - 1
    ensures DeleteRows(rows, k)[i]
         == ShiftedRow(rows[if i < k then i else i + 1], rows[k].status, rows[k].position)
  {
  }

  lemma DeleteCount(rows: seq<Task>, k: nat, s: string)
    requires k < |rows|
    ensures CountIn(DeleteRows(rows, k), s) == CountIn(rows, s) - (if rows[k].status == s then 1 else 0)
  {
    var sh := ShiftAll(rows, rows[k].status, rows[k].position);
    CountSameStatuses(sh, rows, s);
    CountRemove(sh, k, s);
  }

  /** Rows of the partition other than k hold positions other than k's. */
  lemma OtherPosition(rows: seq<Task>, k: nat, i: nat)
    requires k < |rows| && i < |rows| && i != k && rows[i].status == rows[k].status
    requires Distinct(rows, rows[k].status)
    ensures rows[i].position != rows[k].position
  {
    if i < k {
      assert rows[i].position != rows[k].position;
    } else {
      assert rows[k].position != rows[i].position;
    }
  }

  lemma DeleteOwnInRange(rows: seq<Task>, k: nat)
    requires k < |rows|
    requires InRange(rows, rows[k].status, CountIn(rows, rows[k].status)) && Distinct(rows, rows[k].status)
    ensures InRange(DeleteRows(rows, k), rows[k].status, CountIn(rows, rows[k].status) - 1)
  {
    var s, p, d := rows[k].status, rows[k].position, DeleteRows(rows, k);
    forall i | 0 <= i < |d| && d[i].status == s
      ensures 1 <= d[i].position <= CountIn(rows, s) - 1
    {
      DeleteRowAt(rows, k, i);
      OtherPosition(rows, k, if i < k then i else i + 1);
    }
  }

  lemma DeleteOwnDistinct(rows: seq<Task>, k: nat)
    requires k < |rows| && Distinct(rows, rows[k].status)
    ensures Distinct(DeleteRows(rows, k), rows[k].status)
  {
    var s, p, d := rows[k].status, rows[k].position, DeleteRows(rows, k);
    forall i, j | 0 <= i < j < |d| && d[i].status == s && d[j].status == s
      ensures d[i].position != d[j].position
    {
      var oi := if i < k then i else i + 1;
      var oj := if j < k then j else j + 1;
      DeleteRowAt(rows, k, i);
      DeleteRowAt(rows, k, j);
      OtherPosition(rows, k, oi);
      OtherPosition(rows, k, oj);
      assert rows[oi].position != rows[oj].position;
    }
  }

  lemma DeleteOwnCovers(rows: seq<Task>, k: nat)
    requires k < |rows|
    requires Covers(rows, rows[k].status, CountIn(rows, rows[k].status))
    ensures Covers(DeleteRows(rows, k), rows[k].status, CountIn(rows, rows[k].status) - 1)
  {
    var s, p, d := rows[k].status, rows[k].position, DeleteRows(rows, k);
    forall q | 1 <= q <= CountIn(rows, s) - 1
      ensures HasPosition(d, s, q)
    {
      var want := if q < p then q else q + 1;
      assert HasPosition(rows, s, want);
      var w :| 0 <= w < |rows| && rows[w].status == s && rows[w].position == want;
      assert w != k;
      var i := if w < k then w else w - 1;
      assert (if i < k then i else i + 1) == w;
      DeleteRowAt(rows, k, i);
      assert d[i].status == s && d[i].position == q;
    }
  }

  /** Closing the gap left by the row at index k keeps its partition dense (delete case). */
  lemma DeleteKeepsOwnDense(rows: seq<Task>, k: nat)
    requires k < |rows| && Dense(rows, rows[k].status)
    ensures Dense(DeleteRows(rows, k), rows[k].status)
  {
    DeleteCount(rows, k, rows[k].status);
    DeleteOwnInRange(rows, k);
    DeleteOwnDistinct(rows, k);
    DeleteOwnCovers(rows, k);
  }

  /** Deleting a row leaves every other partition as it was. */
  lemma DeleteKeepsOtherDense(rows: seq<Task>, k: nat, s: string)
    requires k < |rows| && rows[k].status != s && Dense(rows, s)
    ensures Dense(DeleteRows(rows, k), s)
  {
    var d := DeleteRows(rows, k);
    DeleteCount(rows, k, s);
    forall i | 0 <= i < |d| && d[i].status == s
      ensures d[i] == rows[if i < k then i else i + 1]
    {
      DeleteRowAt(rows, k, i);
    }
    forall i, j | 0 <= i < j < |d| && d[i].status == s && d[j].status == s
      ensures d[i].position != d[j].position
    {
      assert d[i] == rows[if i < k then i else i + 1];
      assert d[j] == rows[if j < k then j else j + 1];
    }
    forall q | 1 <= q <= CountIn(rows, s)
      ensures HasPosition(d, s, q)
    {
      assert HasPosition(rows, s, q);
      var w :| 0 <= w < |rows| && rows[w].status == s && rows[w].position == q;
      var i := if w < k then w else w - 1;
      DeleteRowAt(rows, k, i);
    }
  }

  /** delete_task keeps every dense partition dense. */
  lemma DeleteKeepsDense(rows: seq<Task>, k: nat, s: string)
    requires k < |rows| && Dense(rows, s)
    ensures Dense(DeleteRows(rows, k), s)
  {
    if rows[k].status == s {
      DeleteKeepsOwnDense(rows, k);
    } else {
      DeleteKeepsOtherDense(rows, k, s);
    }
  }

  /** Where each row of the table after a status change comes from. */
  lemma MoveRowAt(rows: seq<Task>, k: nat, ns: string, now: int, i: nat)
    requires k < |rows| && i < |rows|
    ensures var m := MoveRows(rows, k, ns, now);
      if i == k then m[i].status == ns && m[i].position == NextPosition(rows, ns)
      else m[i] == ShiftedRow(rows[i], rows[k].status, rows[k].position)
  {
  }

  lemma MoveCount(rows: seq<Task>, k: nat, ns: string, now: int, s: string)
    requires k < |rows|
    ensures CountIn(MoveRows(rows, k, ns, now), s)
         == CountIn(rows, s) - (if rows[k].status == s then 1 else 0) + (if ns == s then 1 else 0)
  {
    var sh := ShiftAll(rows, rows[k].status, rows[k].position);
    var m := MoveRows(rows, k, ns, now);
    CountSameStatuses(sh, rows, s);
    CountUpdate(sh, k, m[k], s);
  }

  lemma MoveOldInRange(rows: seq<Task>, k: nat, ns: string, now: int)
    requires k < |rows| && rows[k].status != ns
    requires InRange(rows, rows[k].status, CountIn(rows, rows[k].status)) && Distinct(rows, rows[k].status)
    ensures InRange(MoveRows(rows, k, ns, now), rows[k].status, CountIn(rows, rows[k].status) - 1)
  {
    var s, m := rows[k].status, MoveRows(rows, k, ns, now);
    forall i | 0 <= i < |m| && m[i].status == s
      ensures 1 <= m[i].position <= CountIn(rows, s) - 1
    {
      MoveRowAt(rows, k, ns, now, i);
      OtherPosition(rows, k, i);
    }
  }

  lemma MoveOldDistinct(rows: seq<Task>, k: nat, ns: string, now: int)
    requires k < |rows| && rows[k].status != ns && Distinct(rows, rows[k].status)
    ensures Distinct(MoveRows(rows, k, ns, now), rows[k].status)
  {
    var s, m := rows[k].status, MoveRows(rows, k, ns, now);
    forall i, j | 0 <= i < j < |m| && m[i].status == s && m[j].status == s
      ensures m[i].position != m[j].position
    {
      MoveRowAt(rows, k, ns, now, i);
      MoveRowAt(rows, k, ns, now, j);
      OtherPosition(rows, k, i);
      OtherPosition(rows, k, j);
    }
  }

  /** Rows of partition s other than k keep 1..n-1 covered once k's position is closed up. */
  lemma MoveOldCovers(rows: seq<Task>, k: nat, ns: string, now: int)
    requires k < |rows|
    requires Covers(rows, rows[k].status, CountIn(rows, rows[k].status))
    ensures Covers(MoveRows(rows, k, ns, now), rows[k].status, CountIn(rows, rows[k].status) - 1)
  {
    var s, p, m := rows[k].status, rows[k].position, MoveRows(rows, k, ns, now);
    forall q | 1 <= q <= CountIn(rows, s) - 1
      ensures HasPosition(m, s, q)
    {
      var want := if q < p then q else q + 1;
      assert HasPosition(rows, s, want);
      var w :| 0 <= w < |rows| && rows[w].status == s && rows[w].position == want;
      MoveRowAt(rows, k, ns, now, w);
    }
  }

  /** Moving a row out of its partition closes the gap it leaves. */
  lemma MoveKeepsOldDense(rows: seq<Task>, k: nat, ns: string, now: int)
    requires k < |rows| && rows[k].status != ns && Dense(rows, rows[k].status)
    ensures Dense(MoveRows(rows, k, ns, now), rows[k].status)
  {
    MoveCount(rows, k, ns, now, rows[k].status);
    MoveOldInRange(rows, k, ns, now);
    MoveOldDistinct(rows, k, ns, now);
    MoveOldCovers(rows, k, ns, now);
  }

  /** Moving a row into another partition appends it at N + 1. */
  lemma MoveKeepsNewDense(rows: seq<Task>, k: nat, ns: string, now: int)
    requires k < |rows| && rows[k].status != ns && Dense(rows, ns)
    ensures Dense(MoveRows(rows, k, ns, now), ns)
  {
    var m := MoveRows(rows, k, ns, now);
    var n := CountIn(rows, ns);
    NextPositionDense(rows, ns);
    MoveCount(rows, k, ns, now, ns);
    forall i | 0 <= i < |m|
      ensures i != k ==> m[i].status == ns ==> m[i] == rows[i]
      ensures i == k ==> m[i].position == n + 1
    {
      MoveRowAt(rows, k, ns, now, i);
    }
    forall i | 0 <= i < |m| && m[i].status == ns
      ensures 1 <= m[i].position <= n + 1
    {
    }
    forall i, j | 0 <= i < j < |m| && m[i].status == ns && m[j].status == ns
      ensures m[i].position != m[j].position
    {
    }
    forall q | 1 <= q <= n + 1
      ensures HasPosition(m, ns, q)
    {
      if q == n + 1 {
        assert m[k].status == ns && m[k].position == q;
      } else {
        assert HasPosition(rows, ns, q);
        var w :| 0 <= w < |rows| && rows[w].status == ns && rows[w].position == q;
        assert m[w] == rows[w];
      }
    }
  }

  /** A status change leaves partitions other than the two it touches as they were. */
  lemma MoveKeepsOtherDense(rows: seq<Task>, k: nat, ns: string, now: int, s: string)
    requires k < |rows| && s != rows[k].status && s != ns && Dense(rows, s)
    ensures Dense(MoveRows(rows, k, ns, now), s)
  {
    var m := MoveRows(rows, k, ns, now);
    MoveCount(rows, k, ns, now, s);
    forall i | 0 <= i < |m| && (m[i].status == s || rows[i].status == s)
      ensures m[i] == rows[i]
    {
      MoveRowAt(rows, k, ns, now, i);
    }
    forall q | 1 <= q <= CountIn(rows, s)
      ensures HasPosition(m, s, q)
    {
      assert HasPosition(rows, s, q);
      var w :| 0 <= w < |rows| && rows[w].status == s && rows[w].position == q;
      assert m[w] == rows[w];
    }
  }

  /** update_task_status to a different status keeps every dense partition dense. */
  lemma MoveKeepsDense(rows: seq<Task>, k: nat, ns: string, now: int, s: string)
    requires k < |rows| && rows[k].status != ns && Dense(rows, s)
    ensures Dense(MoveRows(rows, k, ns, now), s)
  {
    if s == rows[k].status {
      MoveKeepsOldDense(rows, k, ns, now);
    } else if s == ns {
      MoveKeepsNewDense(rows, k, ns, now);
    } else {
      MoveKeepsOtherDense(rows, k, ns, now, s);
    }
  }

  /**
   * Moving a row to the status it already has reads the maximum before
   * closing the gap, so a dense partition of N rows ends with positions
   * 1..N-1 for the others and N + 1 for the moved row: no longer dense.
   */
  lemma SameStatusMoveBreaksDense(rows: seq<Task>, k: nat, now: int)
    requires k < |rows| && Dense(rows, rows[k].status)
    ensures var s, m, n := rows[k].status, MoveRows(rows, k, rows[k].status, now), CountIn(rows, rows[k].status);
      && CountIn(m, s) == n
      && m[k].position == n + 1
      && (forall i :: 0 <= i < |m| && i != k && m[i].status == s ==> 1 <= m[i].position <= n - 1)
      && (forall q :: 1 <= q <= n - 1 ==> HasPosition(m, s, q))
      && !Dense(m, s)
  {
    var s := rows[k].status;
    var m := MoveRows(rows, k, s, now);
    var n := CountIn(rows, s);
    NextPositionDense(rows, s);
    MoveCount(rows, k, s, now, s);
    forall i | 0 <= i < |m| && i != k && m[i].status == s
      ensures 1 <= m[i].position <= n - 1
    {
      MoveRowAt(rows, k, s, now, i);
      OtherPosition(rows, k, i);
    }
    MoveOldCovers(rows, k, s, now);
    MoveRowAt(rows, k, s, now, k);
    assert !InRange(m, s, n) by {
      assert m[k].status == s && m[k].position == n + 1;
    }
  }

  /** A move to another status keeps every dense partition dense. */
  lemma MoveKeepsAllDense(rows: seq<Task>, k: nat, ns: string, now: int)
    requires k < |rows| && rows[k].status != ns
    ensures forall s :: Dense(rows, s) ==> Dense(MoveRows(rows, k, ns, now), s)
  {
    forall s | Dense(rows, s) ensures Dense(MoveRows(rows, k, ns, now), s) {
      MoveKeepsDense(rows, k, ns, now, s);
    }
  }

  /** A move changes no id, so the ids stay unique and below the next id. */
  lemma MoveKeepsIds(rows: seq<Task>, k: nat, ns: string, now: int, nextId: int)
    requires k < |rows|
    requires UniqueIds(rows) && forall i :: 0 <= i < |rows| ==> 1 <= rows[i].id < nextId
    ensures var m := MoveRows(rows, k, ns, now);
      UniqueIds(m) && forall i :: 0 <= i < |m| ==> 1 <= m[i].id < nextId
  {
    var m := MoveRows(rows, k, ns, now);
    assert forall i :: 0 <= i < |m| ==> m[i].id == rows[i].id;
  }

  /** An unknown id updates nothing. */
  lemma EditUnknownId(rows: seq<Task>, id: int, f: Fields, now: int)
    requires IndexOf(rows, id).None?
    ensures EditRows(rows, id, f, now) == rows
  {
  }

  /**
   * update_task never touches position, so an edit that changes the status
   * carries a stale position: a dense partition the row joins gets a
   * duplicate when the row's old position is at most its size, and the
   * partition it leaves gets a gap unless the row was last.
   */
  lemma EditStatusChangeBreaksDense(rows: seq<Task>, k: nat, f: Fields, now: int)
    requires k < |rows| && UniqueIds(rows)
    requires rows[k].status != f.status
    requires Dense(rows, rows[k].status) && Dense(rows, f.status)
    ensures var e := EditRows(rows, rows[k].id, f, now);
      && e[k].status == f.status && e[k].position == rows[k].position
      && (rows[k].position <= CountIn(rows, f.status) ==> !Dense(e, f.status))
      && (rows[k].position < CountIn(rows, rows[k].status) ==> !Dense(e, rows[k].status))
  {
    var e := EditRows(rows, rows[k].id, f, now);
    var os, ns, p := rows[k].status, f.status, rows[k].position;
    assert forall i :: 0 <= i < |rows| && i != k ==> e[i] == rows[i] by {
      forall i | 0 <= i < |rows| && i != k ensures e[i] == rows[i] {
        if i < k { assert rows[i].id != rows[k].id; } else { assert rows[k].id != rows[i].id; }
      }
    }
    assert e == rows[k := e[k]];
    CountUpdate(rows, k, e[k], ns);
    CountUpdate(rows, k, e[k], os);
    if p <= CountIn(rows, ns) {
      assert HasPosition(rows, ns, p);
      var w :| 0 <= w < |rows| && rows[w].status == ns && rows[w].position == p;
      assert w != k && e[w] == rows[w];
      if w < k { assert e[w].position == e[k].position; } else { assert e[k].position == e[w].position; }
    }
    var n := CountIn(rows, os);
    if p < n {
      assert HasPosition(rows, os, n);
      var w :| 0 <= w < |rows| && rows[w].status == os && rows[w].position == n;
      assert w != k && e[w] == rows[w];
      assert CountIn(e, os) == n - 1;
    }
  }

  // ---------------------------------------------------------------------
  // Reading the table: get_tasks

  /** The status categories in board order; a status outside them sorts after all four. */
  function StatusRank(s: string): (r: nat)
    ensures s == ToDo ==> r == 0
    ensures s == InProgress ==> r == 1
    ensures s == Blocked ==> r == 2
    ensures s == Done ==> r == 3
    ensures !KnownStatus(s) ==> r == 4
  {
    if s == ToDo then 0 else if s == InProgress then 1 else if s == Blocked then 2
    else if s == Done then 3 else 4
  }

  /**
   * A due date that parses next to a non-empty time that does not: building
   * the combined timestamp raises, and get_tasks answers an empty frame.
   */
  predicate Unreadable(t: Task) {
    t.dueDate.Day? && t.dueTime.BadTime? && t.dueTime.raw != ""
  }

  /** The sort key: status category, then the due moment in minutes; None is Timestamp.max. */
  datatype SortKey = SortKey(rank: nat, when: Option<int>)

  function KeyOf(t: Task): SortKey {
    var when :=
      match t.dueDate
      case Day(d) => (match t.dueTime case At(m) => Some(d * 1440 + m) case _ => Some(d * 1440))
      case _ => None;
    SortKey(StatusRank(t.status), when)
  }

  /** Key order: by category, then by due moment with the missing moment last. */
  predicate KeyLe(a: SortKey, b: SortKey) {
    a.rank < b.rank || (a.rank == b.rank && (b.when.None? || (a.when.Some? && a.when.value <= b.when.value)))
  }

  /** KeyLe is a total order on keys. */
  lemma KeyLeTotalOrder(a: SortKey, b: SortKey, c: SortKey)
    ensures KeyLe(a, b) || KeyLe(b, a)
    ensures KeyLe(a, b) && KeyLe(b, a) ==> a == b
    ensures KeyLe(a, b) && KeyLe(b, c) ==> KeyLe(a, c)
  {
  }

  /** The row as the frame shows it: an unparseable date reads as missing, a missing time as "". */
  function Shown(t: Task): (r: Task)
    ensures KeyOf(r) == KeyOf(t)
  {
    t.(dueDate := if t.dueDate.Text? then Absent else t.dueDate,
       dueTime := if t.dueTime.NoTime? then BadTime("") else t.dueTime)
  }

  predicate SortedByKey(xs: seq<Task>) {
    forall i, j :: 0 <= i < j < |xs| ==> KeyLe(KeyOf(xs[i]), KeyOf(xs[j]))
  }

  /** The rows of xs whose key is exactly c, in their order in xs. */
  function WithKey(xs: seq<Task>, c: SortKey): seq<Task> {
    if |xs| == 0 then []
    else (if KeyOf(xs[0]) == c then [xs[0]] else []) + WithKey(xs[1..], c)
  }

  /** Place x before the first row whose key is not smaller, so equal keys keep x first. */
  function Insert(x: Task, ys: seq<Task>): (r: seq<Task>)
    ensures multiset(r) == multiset(ys) + multiset{x}
  {
    if |ys| == 0 || KeyLe(KeyOf(x), KeyOf(ys[0])) then [x] + ys
    else
      assert ys == [ys[0]] + ys[1..];
      [ys[0]] + Insert(x, ys[1..])
  }

  lemma SortedTail(ys: seq<Task>)
    requires |ys| > 0 && SortedByKey(ys)
    ensures SortedByKey(ys[1..])
  {
    forall i, j | 0 <= i < j < |ys[1..]| ensures KeyLe(KeyOf(ys[1..][i]), KeyOf(ys[1..][j])) {
      assert ys[1..][i] == ys[i + 1] && ys[1..][j] == ys[j + 1];
    }
  }

  /** Every row of xs has a key at least b. */
  predicate AllAtLeast(b: SortKey, xs: seq<Task>) {
    forall j :: 0 <= j < |xs| ==> KeyLe(b, KeyOf(xs[j]))
  }

  lemma SortedCons(y: Task, rest: seq<Task>)
    requires AllAtLeast(KeyOf(y), rest) && SortedByKey(rest)
    ensures SortedByKey([y] + rest)
  {
    var r := [y] + rest;
    forall i, j | 0 <= i < j < |r| ensures KeyLe(KeyOf(r[i]), KeyOf(r[j])) {
      assert r[j] == rest[j - 1];
      if i > 0 { assert r[i] == rest[i - 1]; }
    }
  }

  lemma SortedHead(ys: seq<Task>)
    requires |ys| > 0 && SortedByKey(ys)
    ensures AllAtLeast(KeyOf(ys[0]), ys[1..])
  {
    forall j | 0 <= j < |ys[1..]| ensures KeyLe(KeyOf(ys[0]), KeyOf(ys[1..][j])) {
      assert ys[1..][j] == ys[j + 1];
    }
  }

  lemma {:induction false} InsertAtLeast(x: Task, ys: seq<Task>, b: SortKey)
    requires AllAtLeast(b, ys) && KeyLe(b, KeyOf(x))
    ensures AllAtLeast(b, Insert(x, ys))
  {
    if |ys| == 0 || KeyLe(KeyOf(x), KeyOf(ys[0])) {
      var r := [x] + ys;
      forall j | 0 <= j < |r| ensures KeyLe(b, KeyOf(r[j])) {
        if j > 0 { assert r[j] == ys[j - 1]; }
      }
    } else {
      assert AllAtLeast(b, ys[1..]) by {
        forall j | 0 <= j < |ys[1..]| ensures KeyLe(b, KeyOf(ys[1..][j])) {
          assert ys[1..][j] == ys[j + 1];
        }
      }
      InsertAtLeast(x, ys[1..], b);
      var rest := Insert(x, ys[1..]);
      var r := [ys[0]] + rest;
      forall j | 0 <= j < |r| ensures KeyLe(b, KeyOf(r[j])) {
        if j > 0 { assert r[j] == rest[j - 1]; }
      }
    }
  }

  lemma {:induction false} InsertSorted(x: Task, ys: seq<Task>)
    requires SortedByKey(ys)
    ensures SortedByKey(Insert(x, ys))
  {
    if |ys| == 0 {
    } else if KeyLe(KeyOf(x), KeyOf(ys[0])) {
      forall j | 0 <= j < |ys| ensures KeyLe(KeyOf(x), KeyOf(ys[j])) {
        KeyLeTotalOrder(KeyOf(x), KeyOf(ys[0]), KeyOf(ys[j]));
      }
      SortedCons(x, ys);
    } else {
      SortedTail(ys);
      InsertSorted(x, ys[1..]);
      SortedHead(ys);
      KeyLeTotalOrder(KeyOf(x), KeyOf(ys[0]), KeyOf(x));
      InsertAtLeast(x, ys[1..], KeyOf(ys[0]));
      SortedCons(ys[0], Insert(x, ys[1..]));
    }
  }

  /** Inserting x adds it in front of the rows with the same key and leaves other keys alone. */
  lemma {:induction false} InsertWithKey(x: Task, ys: seq<Task>, c: SortKey)
    ensures WithKey(Insert(x, ys), c) == (if KeyOf(x) == c then [x] else []) + WithKey(ys, c)
  {
    if |ys| == 0 || KeyLe(KeyOf(x), KeyOf(ys[0])) {
      assert ([x] + ys)[1..] == ys;
    } else {
      InsertWithKey(x, ys[1..], c);
      var rest := Insert(x, ys[1..]);
      assert ([ys[0]] + rest)[1..] == rest;
      assert KeyOf(ys[0]) != KeyOf(x);
    }
  }

  /** Insertion sort on the keys. */
  function SortByKey(xs: seq<Task>): (r: seq<Task>)
    ensures SortedByKey(r)
    ensures multiset(r) == multiset(xs)
  {
    if |xs| == 0 then []
    else
      var rest := SortByKey(xs[1..]);
      InsertSorted(xs[0], rest);
      assert xs == [xs[0]] + xs[1..];
      Insert(xs[0], rest)
  }

  /** The sort is stable: the rows of each key keep their table order. */
  lemma {:induction false} SortStable(xs: seq<Task>, c: SortKey)
    ensures WithKey(SortByKey(xs), c) == WithKey(xs, c)
  {
    if |xs| > 0 {
      SortStable(xs[1..], c);
      InsertWithKey(xs[0], SortByKey(xs[1..]), c);
    }
  }

  function ShownAll(rows: seq<Task>): (r: seq<Task>)
    ensures |r| == |rows| && forall i :: 0 <= i < |rows| ==> r[i] == Shown(rows[i])
  {
    seq(|rows|, i requires 0 <= i < |rows| => Shown(rows[i]))
  }

  /**
   * get_tasks: the rows sorted by category and due moment, or `None` for the
   * column-less frame the exception handler returns when one row makes the
   * timestamp construction raise. An empty table reads as `Some([])`.
   */
  function ReadTasks(rows: seq<Task>): (r: Option<seq<Task>>)
    ensures r.None? <==> exists i :: 0 <= i < |rows| && Unreadable(rows[i])
    ensures r.Some? ==> (r.value == [] <==> rows == [])
  {
    if exists i :: 0 <= i < |rows| && Unreadable(rows[i]) then None
    else
      var r := SortByKey(ShownAll(rows));
      assert |rows| > 0 ==> ShownAll(rows)[0] in multiset(r);
      Some(r)
  }

  /**
   * The order the board reads: categories To Do, In Progress, Blocked, Done,
   * then any other status; inside a category earlier due dates first and
   * rows without a parseable due date last, ties in table order; every row
   * read exactly once, with unparseable dates shown as missing; by due
   * time inside a due day.
   */
  lemma ReadOrder(rows: seq<Task>)
    requires forall i :: 0 <= i < |rows| ==> !Unreadable(rows[i])
    ensures ReadTasks(rows).Some?
    ensures var r := ReadTasks(rows).value;
      && SortedByKey(r)
      && multiset(r) == multiset(ShownAll(rows))
      && (forall i, j :: 0 <= i < j < |r| ==> StatusRank(r[i].status) <= StatusRank(r[j].status))
      && (forall i, j :: 0 <= i < j < |r| && r[i].status == r[j].status && !r[i].dueDate.Day? ==> !r[j].dueDate.Day?)
      && (forall i, j :: 0 <= i < j < |r| && r[i].status == r[j].status && r[i].dueDate.Day? && r[j].dueDate.Day?
            ==> r[i].dueDate.ordinal <= r[j].dueDate.ordinal)
      && (forall c :: WithKey(r, c) == WithKey(ShownAll(rows), c))
  {
    var r := ReadTasks(rows).value;
    forall c ensures WithKey(r, c) == WithKey(ShownAll(rows), c) {
      SortStable(ShownAll(rows), c);
    }
    forall i, j | 0 <= i < j < |r| && r[i].status == r[j].status && r[i].dueDate.Day? && r[j].dueDate.Day?
      ensures r[i].dueDate.ordinal <= r[j].dueDate.ordinal
    {
      assert KeyLe(KeyOf(r[i]), KeyOf(r[j]));
      var a, b := r[i].dueDate.ordinal, r[j].dueDate.ordinal;
      var ma := if r[i].dueTime.At? then r[i].dueTime.minute else 0;
      var mb := if r[j].dueTime.At? then r[j].dueTime.minute else 0;
      assert a * 1440 + ma <= b * 1440 + mb;
    }
  }

  // ---------------------------------------------------------------------
  // The table

  class TaskTable {
    var rows: seq<Task>
    var nextId: int   // the AUTOINCREMENT counter: ids are never reused

    ghost predicate Valid()
      reads this
    {
      nextId >= 1 && UniqueIds(rows) && forall i :: 0 <= i < |rows| ==> 1 <= rows[i].id < nextId
    }

    /** A freshly initialised, empty table. */
    constructor ()
      ensures Valid() && rows == [] && nextId == 1
    {
      rows := [];
      nextId := 1;
    }

    /** `SELECT ... FROM tasks WHERE id = ?`: the index of the row, if any. */
    method FindRow(id: int) returns (k: Option<nat>)
      ensures k == IndexOf(rows, id)
    {
      var i := 0;
      while i < |rows|
        invariant 0 <= i <= |rows|
        invariant forall j :: 0 <= j < i ==> rows[j].id != id
      {
        if rows[i].id == id {
          return Some(i);
        }
        i := i + 1;
      }
      return None;
    }

    /** `SELECT MAX(position) FROM tasks WHERE status = ?` */
    method MaxPositionIn(s: string) returns (m: Option<int>)
      ensures m == MaxPosition(rows, s)
    {
      m := None;
      var i := 0;
      while i < |rows|
        invariant 0 <= i <= |rows|
        invariant m == MaxPosition(rows[..i], s)
      {
        assert rows[..i + 1][..i] == rows[..i];
        var r := rows[i];
        if r.status == s && (m.None? || r.position > m.value) {
          m := Some(r.position);
        }
        i := i + 1;
      }
      assert rows[..|rows|] == rows;
    }

    /** `UPDATE tasks SET position = position - 1 WHERE status = ? AND position > ?` */
    method ShiftDown(s: string, p: int)
      requires Valid()
      modifies this
      ensures Valid()
      ensures rows == ShiftAll(old(rows), s, p) && nextId == old(nextId)
    {
      var i := 0;
      while i < |rows|
        invariant 0 <= i <= |rows| && |rows| == |old(rows)| && nextId == old(nextId)
        invariant forall j :: 0 <= j < i ==> rows[j] == ShiftedRow(old(rows)[j], s, p)
        invariant forall j :: i <= j < |rows| ==> rows[j] == old(rows)[j]
      {
        if rows[i].status == s && rows[i].position > p {
          rows := rows[i := rows[i].(position := rows[i].position - 1)];
        }
        i := i + 1;
      }
    }

    /** add_task: append to the end of the status partition; returns the new id. */
    method AddTask(f: Fields, parentId: Option<int>, now: int) returns (r: Result<int>)
      requires Valid()
      modifies this
      ensures Valid()
      ensures !Formattable(f) ==> r == Err(NotFormattable) && rows == old(rows) && nextId == old(nextId)
      ensures Formattable(f) ==>
        && r == Ok(old(nextId)) && nextId == old(nextId) + 1
        && rows == old(rows) + [NewRow(old(nextId), f, NextPosition(old(rows), f.status), parentId, now)]
      ensures forall s :: old(Dense(rows, s)) ==> Dense(rows, s)
    {
      var m := MaxPositionIn(f.status);
      var position := if m.None? then 1 else m.value + 1;
      if !Formattable(f) {
        return Err(NotFormattable);
      }
      var t := NewRow(nextId, f, position, parentId, now);
      forall s | Dense(rows, s) ensures Dense(rows + [t], s) {
        AddKeepsDense(rows, t, s);
      }
      rows := rows + [t];
      r := Ok(nextId);
      nextId := nextId + 1;
    }

    /** update_task: overwrite the form fields of the row with this id; position is untouched. */
    method UpdateTask(id: int, f: Fields, now: int) returns (r: Outcome)
      requires Valid()
      modifies this
      ensures Valid() && nextId == old(nextId)
      ensures !Formattable(f) ==> r == Failure(NotFormattable) && rows == old(rows)
      ensures Formattable(f) ==> r == Success && rows == EditRows(old(rows), id, f, now)
    {
      if !Formattable(f) {
        return Failure(NotFormattable);
      }
      var i := 0;
      while i < |rows|
        invariant 0 <= i <= |rows| && |rows| == |old(rows)| && nextId == old(nextId)
        invariant forall j :: 0 <= j < i ==> rows[j] == EditRows(old(rows), id, f, now)[j]
        invariant forall j :: i <= j < |rows| ==> rows[j] == old(rows)[j]
      {
        if rows[i].id == id {
          rows := rows[i := Edited(rows[i], f, now)];
        }
        i := i + 1;
      }
      r := Success;
    }

    /** update_task_status: close the gap in the old partition, append to the new one. */
    method UpdateTaskStatus(id: int, newStatus: string, now: int) returns (r: Outcome)
      requires Valid()
      modifies this
      ensures Valid() && nextId == old(nextId)
      ensures IndexOf(old(rows), id).None? ==> r == Failure(RowNotFound) && rows == old(rows)
      ensures IndexOf(old(rows), id).Some? ==>
        r == Success && rows == MoveRows(old(rows), IndexOf(old(rows), id).value, newStatus, now)
      ensures IndexOf(old(rows), id).Some? && old(rows)[IndexOf(old(rows), id).value].status != newStatus ==>
        forall s :: old(Dense(rows, s)) ==> Dense(rows, s)
    {
      var k := FindRow(id);
      if k.None? {
        return Failure(RowNotFound);
      }
      ghost var before := rows;
      MoveKeepsIds(before, k.value, newStatus, now, nextId);
      if rows[k.value].status != newStatus {
        MoveKeepsAllDense(before, k.value, newStatus, now);
      }
      var oldStatus, oldPosition := rows[k.value].status, rows[k.value].position;
      var m := MaxPositionIn(newStatus);
      var newPosition := if m.None? then 1 else m.value + 1;
      assert newPosition == NextPosition(before, newStatus);
      ShiftDown(oldStatus, oldPosition);
      assert rows[k.value] == before[k.value];
      rows := rows[k.value := rows[k.value].(status := newStatus, position := newPosition, lastUpdated := now)];
      assert rows == MoveRows(before, k.value, newStatus, now);
      r := Success;
    }

    /** delete_task: close the gap in the row's partition, then remove the row. */
    method DeleteTask(id: int) returns (r: Outcome)
      requires Valid()
      modifies this
      ensures Valid() && nextId == old(nextId)
      ensures IndexOf(old(rows), id).None? ==> r == Failure(RowNotFound) && rows == old(rows)
      ensures IndexOf(old(rows), id).Some? ==>
        r == Success && rows == DeleteRows(old(rows), IndexOf(old(rows), id).value)
      ensures forall s :: old(Dense(rows, s)) ==> Dense(rows, s)
    {
      var k := FindRow(id);
      if k.None? {
        return Failure(RowNotFound);
      }
      forall s | Dense(rows, s) ensures Dense(DeleteRows(rows, k.value), s) {
        DeleteKeepsDense(rows, k.value, s);
      }
      ShiftDown(rows[k.value].status, rows[k.value].position);
      rows := rows[..k.value] + rows[k.value + 1..];
      r := Success;
    }
  }
}
