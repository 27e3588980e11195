/**
 * The board page of the task manager: the quick filters, the filter chain
 * applied to the rows read from the store, the "→" button's next status,
 * and the once-per-session guard that every button action goes through.
 * Today's date is a parameter (a valid calendar date); the clock value that
 * makes an action id unique is a parameter too.
 */
module Board {
  import opened Tasks
  import opened Strings
  import opened Dates
  import opened Database

  // ---------------------------------------------------------------------
  // Filters

  /** The choices of the "Due Date" select box. */
  datatype DueFilter = AllDates | Overdue | DueToday | DueThisWeek | DueThisMonth

  /**
   * What the filter chain reads: the search box, the status and priority
   * selections, the due-date bucket, the custom range switch with its two
   * day ordinals, and the "No Due Date" quick filter.
   */
  datatype Criteria = Criteria(
    search: string,
    statuses: seq<string>,
    priorities: seq<string>,
    due: DueFilter,
    useRange: bool,
    start: int,
    end: int,
    noDueDate: bool)

  /** One boolean mask over the rows, as the board builds them. */
  datatype Mask =
    | Everything                      // a step that is skipped
    | SearchFor(q: string)            // a lowercased query
    | StatusIn(statuses: seq<string>)
    | PriorityIn(priorities: seq<string>)
    | MissingDue                      // pd.isna(due_date)
    | DueBetween(lo: int, hi: int)    // lo <= due <= hi
    | DueBefore(day: int)             // due < day
    | DueOn(day: int)                 // due == day
    | Both(first: Mask, second: Mask)

  /** `field.str.lower().str.contains(q, na=False)`: a missing field never matches. */
  predicate FieldHas(field: Option<string>, q: string) {
    field.Some? && Contains(Lower(field.value), q)
  }

  predicate Holds(m: Mask, t: Task) {
    match m
    case Everything => true
    case SearchFor(q) => FieldHas(Some(t.title), q) || FieldHas(t.description, q) || FieldHas(t.labels, q)
    case StatusIn(ss) => t.status in ss
    case PriorityIn(ps) => t.priority in ps
    case MissingDue => t.dueDate.Absent?
    case DueBetween(lo, hi) => DueDay(t).Some? && lo <= DueDay(t).value <= hi
    case DueBefore(d) => DueDay(t).Some? && DueDay(t).value < d
    case DueOn(d) => DueDay(t).Some? && DueDay(t).value == d
    case Both(a, b) => Holds(a, t) && Holds(b, t)
  }

  /** `df[mask]`: the rows the mask holds for, in their order. */
  function Keep(xs: seq<Task>, m: Mask): (r: seq<Task>)
    ensures |r| <= |xs|
  {
    if |xs| == 0 then []
    else (if Holds(m, xs[0]) then [xs[0]] else []) + Keep(xs[1..], m)
  }

  /** A row survives a mask exactly when it was there and the mask holds for it. */
  lemma {:induction false} KeepMembers(xs: seq<Task>, m: Mask, t: Task)
    ensures t in Keep(xs, m) <==> t in xs && Holds(m, t)
  {
    if |xs| > 0 {
      KeepMembers(xs[1..], m, t);
      assert xs == [xs[0]] + xs[1..];
    }
  }

  /** Masking commutes with concatenation, so rows keep their relative order. */
  lemma {:induction false} KeepAppend(a: seq<Task>, b: seq<Task>, m: Mask)
    ensures Keep(a + b, m) == Keep(a, m) + Keep(b, m)
  {
    if |a| > 0 {
      assert (a + b)[0] == a[0] && (a + b)[1..] == a[1..] + b;
      KeepAppend(a[1..], b, m);
      var head := if Holds(m, a[0]) then [a[0]] else [];
      assert Keep(a + b, m) == head + Keep(a[1..] + b, m);
      assert Keep(a, m) == head + Keep(a[1..], m);
    } else {
      assert a + b == b;
    }
  }

  /** Applying one mask after another is applying both at once. */
  lemma {:induction false} KeepBoth(xs: seq<Task>, a: Mask, b: Mask)
    ensures Keep(Keep(xs, a), b) == Keep(xs, Both(a, b))
  {
    if |xs| > 0 {
      KeepBoth(xs[1..], a, b);
      var head := if Holds(a, xs[0]) then [xs[0]] else [];
      KeepAppend(head, Keep(xs[1..], a), b);
      if Holds(a, xs[0]) {
        assert head[1..] == [];
      }
    }
  }

  /** A skipped step leaves the rows as they are. */
  lemma {:induction false} KeepEverything(xs: seq<Task>)
    ensures Keep(xs, Everything) == xs
  {
    if |xs| > 0 {
      KeepEverything(xs[1..]);
      assert xs == [xs[0]] + xs[1..];
    }
  }

  /** The search step, skipped when the box is empty; the query is lowercased once. */
  function SearchMask(c: Criteria): Mask {
    if c.search == "" then Everything else SearchFor(Lower(c.search))
  }

  /** An empty selection is no constraint. */
  function StatusMask(c: Criteria): Mask {
    if c.statuses == [] then Everything else StatusIn(c.statuses)
  }

  function PriorityMask(c: Criteria): Mask {
    if c.priorities == [] then Everything else PriorityIn(c.priorities)
  }

  /** The named bucket of the "Due Date" select box, relative to today. */
  function BucketMask(f: DueFilter, today: Date): Mask
    requires ValidDate(today)
  {
    var t := ToOrdinal(today);
    match f
    case AllDates => Everything
    case Overdue => DueBefore(t)
    case DueToday => DueOn(t)
    case DueThisWeek => DueBetween(t, EndOfWeek(t))
    case DueThisMonth => DueBetween(t, EndOfMonth(today))
  }

  /** The date step: "No Due Date", else a forward custom range, else the bucket. */
  function DateMask(c: Criteria, today: Date): Mask
    requires ValidDate(today)
  {
    if c.noDueDate then MissingDue
    else if c.useRange && c.start <= c.end then DueBetween(c.start, c.end)
    else BucketMask(c.due, today)
  }

  /** The whole chain: search, then status, then priority, then the date step. */
  function CriteriaMask(c: Criteria, today: Date): Mask
    requires ValidDate(today)
  {
    Both(Both(Both(SearchMask(c), StatusMask(c)), PriorityMask(c)), DateMask(c, today))
  }

  /** The filter block, narrowing the frame one mask at a time. */
  method ApplyFilters(rows: seq<Task>, c: Criteria, today: Date) returns (shown: seq<Task>)
    requires ValidDate(today)
    ensures shown == Keep(rows, CriteriaMask(c, today))
    ensures forall t :: t in shown <==> t in rows && Holds(CriteriaMask(c, today), t)
  {
    shown := rows;
    if c.search != "" {
      var q := Lower(c.search);
      shown := Keep(shown, SearchFor(q));
    } else {
      KeepEverything(shown);
    }
    assert shown == Keep(rows, SearchMask(c));
    ghost var prev := shown;
    if c.statuses != [] {
      shown := Keep(shown, StatusIn(c.statuses));
    } else {
      KeepEverything(shown);
    }
    KeepBoth(rows, SearchMask(c), StatusMask(c));
    assert shown == Keep(prev, StatusMask(c));
    prev := shown;
    if c.priorities != [] {
      shown := Keep(shown, PriorityIn(c.priorities));
    } else {
      KeepEverything(shown);
    }
    KeepBoth(rows, Both(SearchMask(c), StatusMask(c)), PriorityMask(c));
    assert shown == Keep(prev, PriorityMask(c));
    prev := shown;
    if c.noDueDate {
      shown := Keep(shown, MissingDue);
    } else if c.useRange && c.start <= c.end {
      shown := Keep(shown, DueBetween(c.start, c.end));
    } else if c.due != AllDates {
      var t := ToOrdinal(today);
      if c.due == Overdue {
        shown := Keep(shown, DueBefore(t));
      } else if c.due == DueToday {
        shown := Keep(shown, DueOn(t));
      } else if c.due == DueThisWeek {
        var endOfWeek := EndOfWeek(t);
        shown := Keep(shown, DueBetween(t, endOfWeek));
      } else {
        var endOfMonth := EndOfMonth(today);
        shown := Keep(shown, DueBetween(t, endOfMonth));
      }
    } else {
      KeepEverything(shown);
    }
    assert shown == Keep(prev, DateMask(c, today));
    KeepBoth(rows, Both(Both(SearchMask(c), StatusMask(c)), PriorityMask(c)), DateMask(c, today));
    forall t ensures t in shown <==> t in rows && Holds(CriteriaMask(c, today), t) {
      KeepMembers(rows, CriteriaMask(c, today), t);
    }
  }

  /** `q in f`, read as: q is the slice of f at some offset. */
  predicate OccursIn(q: string, f: string) {
    exists i :: 0 <= i <= |f| && OccursAt(q, f, i)
  }

  predicate OccursAt(q: string, f: string, i: int) {
    0 <= i && i + |q| <= |f| && f[i..i + |q|] == q
  }

  /** A present field matches iff the lowercased query occurs in the lowercased field. */
  lemma FieldHasMeaning(field: Option<string>, q: string)
    ensures FieldHas(field, Lower(q)) <==> field.Some? && OccursIn(Lower(q), Lower(field.value))
  {
    if FieldHas(field, Lower(q)) {
      var i := ContainsWitness(Lower(field.value), Lower(q));
      assert OccursAt(Lower(q), Lower(field.value), i);
    }
    if field.Some? && OccursIn(Lower(q), Lower(field.value)) {
      var f, lq := Lower(field.value), Lower(q);
      var i :| 0 <= i <= |f| && OccursAt(lq, f, i);
      assert i + |lq| <= |f| && f[i..i + |lq|] == lq;
      ContainsAt(f, lq, i);
    }
  }

  /** The search step keeps a row iff the query occurs, case aside, in its title, description or labels. */
  lemma SearchMeaning(q: string, t: Task)
    ensures Holds(SearchFor(Lower(q)), t) <==>
      OccursIn(Lower(q), Lower(t.title))
      || (t.description.Some? && OccursIn(Lower(q), Lower(t.description.value)))
      || (t.labels.Some? && OccursIn(Lower(q), Lower(t.labels.value)))
  {
    FieldHasMeaning(Some(t.title), q);
    FieldHasMeaning(t.description, q);
    FieldHasMeaning(t.labels, q);
  }

  /** The whole chain keeps a row iff each of the four steps does. */
  lemma FilterMeaning(rows: seq<Task>, c: Criteria, today: Date, t: Task)
    requires ValidDate(today)
    ensures t in Keep(rows, CriteriaMask(c, today)) <==>
      t in rows
      && (c.search == "" || Holds(SearchFor(Lower(c.search)), t))
      && (c.statuses == [] || t.status in c.statuses)
      && (c.priorities == [] || t.priority in c.priorities)
      && Holds(DateMask(c, today), t)
  {
    KeepMembers(rows, CriteriaMask(c, today), t);
    var m1 := Both(SearchMask(c), StatusMask(c));
    var m2 := Both(m1, PriorityMask(c));
    assert Holds(m1, t) == (Holds(SearchMask(c), t) && Holds(StatusMask(c), t));
    assert Holds(m2, t) == (Holds(m1, t) && Holds(PriorityMask(c), t));
    assert Holds(CriteriaMask(c, today), t) == (Holds(m2, t) && Holds(DateMask(c, today), t));
  }

  /** The date step's precedence: "No Due Date" first, then a forward custom range, then the bucket. */
  lemma DatePrecedence(c: Criteria, today: Date, t: Task)
    requires ValidDate(today)
    ensures c.noDueDate ==> (Holds(DateMask(c, today), t) <==> t.dueDate.Absent?)
    ensures !c.noDueDate && c.useRange && c.start <= c.end ==>
      (Holds(DateMask(c, today), t) <==> DueDay(t).Some? && c.start <= DueDay(t).value <= c.end)
    ensures !c.noDueDate && !(c.useRange && c.start <= c.end) ==>
      Holds(DateMask(c, today), t) == Holds(BucketMask(c.due, today), t)
  {
  }

  /**
   * The buckets: Overdue is before today, Due Today is today, Due This Week
   * runs from today to the coming Sunday and Due This Month to the last day
   * of today's month, both ends included.
   */
  lemma BucketMeaning(f: DueFilter, today: Date, t: Task)
    requires ValidDate(today)
    ensures f == AllDates ==> Holds(BucketMask(f, today), t)
    ensures f == Overdue ==> (Holds(BucketMask(f, today), t) <==> DueDay(t).Some? && DueDay(t).value < ToOrdinal(today))
    ensures f == DueToday ==> (Holds(BucketMask(f, today), t) <==> DueDay(t) == Some(ToOrdinal(today)))
    ensures f == DueThisWeek ==> (Holds(BucketMask(f, today), t) <==>
      DueDay(t).Some? && ToOrdinal(today) <= DueDay(t).value
      && DueDay(t).value <= ToOrdinal(today) + 6 - Weekday(ToOrdinal(today)))
    ensures f == DueThisWeek && Holds(BucketMask(f, today), t) ==>
      forall o :: ToOrdinal(today) <= o < DueDay(t).value ==> Weekday(o) != 6
    ensures f == DueThisMonth ==> (Holds(BucketMask(f, today), t) <==>
      DueDay(t).Some? && ToOrdinal(today) <= DueDay(t).value
      && DueDay(t).value <= ToOrdinal(today.(day := DaysInMonth(today.year, today.month))))
  {
  }

  /** A row without a due date passes the date step only under "No Due Date" or "All" with no range. */
  lemma UndatedRows(c: Criteria, today: Date, t: Task)
    requires ValidDate(today) && DueDay(t).None?
    ensures Holds(DateMask(c, today), t) <==>
      (c.noDueDate && t.dueDate.Absent?)
      || (!c.noDueDate && !(c.useRange && c.start <= c.end) && c.due == AllDates)
  {
  }

  /**
   * On rows read from the store a date is either a day or missing, so the
   * "No Due Date" step keeps exactly the rows every range step drops.
   */
  lemma ReadRowsMissingDue(rows: seq<Task>, t: Task)
    requires ReadTasks(rows).Some? && t in ReadTasks(rows).value
    ensures Holds(MissingDue, t) <==> DueDay(t).None?
  {
    var r := ReadTasks(rows).value;
    assert t in multiset(r);
    assert t in multiset(ShownAll(rows));
    var i :| 0 <= i < |ShownAll(rows)| && ShownAll(rows)[i] == t;
    assert t == Shown(rows[i]);
  }

  // ---------------------------------------------------------------------
  // Quick filters

  /**
   * The criteria the quick filter sets when the advanced filters are hidden:
   * no status selection, no custom range (default range today to a week on),
   * and the bucket, priority pair or missing-date switch the choice names.
   */
  function QuickCriteria(filterType: string, search: string, today: int): (c: Criteria)
    ensures c.search == search && c.statuses == [] && !c.useRange
  {
    var due :=
      if filterType == "Overdue" then Overdue
      else if filterType == "Due Today" then DueToday
      else if filterType == "Due This Week" then DueThisWeek
      else AllDates;
    var priorities := if filterType == "High Priority" then [High, Critical] else [];
    Criteria(search, [], priorities, due, false, today, today + 7, filterType == "No Due Date")
  }

  /** With an empty search box, each quick filter keeps exactly the rows it is named after. */
  lemma QuickFilterMeaning(filterType: string, today: Date, t: Task)
    requires ValidDate(today)
    ensures var keeps := Holds(CriteriaMask(QuickCriteria(filterType, "", ToOrdinal(today)), today), t);
      && (filterType == "Overdue" ==> (keeps <==> DueDay(t).Some? && DueDay(t).value < ToOrdinal(today)))
      && (filterType == "Due Today" ==> (keeps <==> DueDay(t) == Some(ToOrdinal(today))))
      && (filterType == "Due This Week" ==> (keeps <==>
            DueDay(t).Some? && ToOrdinal(today) <= DueDay(t).value <= EndOfWeek(ToOrdinal(today))))
      && (filterType == "High Priority" ==> (keeps <==> t.priority == High || t.priority == Critical))
      && (filterType == "No Due Date" ==> (keeps <==> t.dueDate.Absent?))
      && (filterType !in QuickChoices ==> keeps)
  {
    var c := QuickCriteria(filterType, "", ToOrdinal(today));
    var m := CriteriaMask(c, today);
    var k := Holds(m, t);
    assert SearchMask(c) == Everything && StatusMask(c) == Everything;
    var m1 := Both(SearchMask(c), StatusMask(c));
    var m2 := Both(m1, PriorityMask(c));
    assert Holds(m1, t);
    assert Holds(m2, t) == Holds(PriorityMask(c), t);
    assert k == (Holds(m2, t) && Holds(DateMask(c, today), t));
    if filterType == "High Priority" {
      assert "High Priority"[0] == 'H';
      assert c.priorities == [High, Critical] && c.due == AllDates && !c.noDueDate;
    } else if filterType == "Due This Week" {
      assert "Due This Week"[0] == 'D';
      assert c.priorities == [] && c.due == DueThisWeek && !c.noDueDate;
    } else if filterType == "No Due Date" {
      assert c.priorities == [] && c.due == AllDates && c.noDueDate;
    } else if filterType !in QuickChoices {
      assert c.priorities == [] && c.due == AllDates && !c.noDueDate;
    }
  }

  /** The quick filters that narrow the board; any other choice shows everything. */
  const QuickChoices := {"Overdue", "Due Today", "Due This Week", "High Priority", "No Due Date"}

  // ---------------------------------------------------------------------
  // The "→" button

  /**
   * The status the "→" button moves a card to. Only the four board columns
   * carry the button; a Blocked card goes to In Progress and the others
   * follow the cycle To Do, In Progress, Done.
   */
  function NextStatus(status: string): (r: string)
    requires KnownStatus(status)
    ensures KnownStatus(r) && r != status && r != Blocked
    ensures status == ToDo ==> r == InProgress
    ensures status == InProgress ==> r == Done
    ensures status == Done ==> r == ToDo
    ensures status == Blocked ==> r == InProgress
  {
    if status == Blocked then InProgress
    else if status == ToDo then InProgress
    else if status == InProgress then Done
    else ToDo
  }

  /** Three presses bring a card of the cycle back to its column; a blocked card joins the cycle. */
  lemma NextStatusCycle(status: string)
    requires KnownStatus(status)
    ensures status != Blocked ==> NextStatus(NextStatus(NextStatus(status))) == status
    ensures status == Blocked ==> NextStatus(status) == InProgress
  {
  }

  // ---------------------------------------------------------------------
  // Once-per-session actions

  /**
   * The action ids recorded in the session. The session keeps a dictionary
   * whose values are always True, so its keys are all that matters.
   */
  class ActionGuard {
    var performed: set<string>

    /** The session starts with no recorded action. */
    constructor ()
      ensures performed == {}
    {
      performed := {};
    }

    /** perform_action: run the action only if its id is new, recording the id first. */
    method Perform(actionId: string) returns (ran: bool)
      modifies this
      ensures ran <==> actionId !in old(performed)
      ensures performed == old(performed) + {actionId}
    {
      ran := actionId !in performed;
      if ran {
        performed := performed + {actionId};
      }
    }
  }

  /** Which of a series of requests actually run, starting from the recorded ids. */
  function Runs(recorded: set<string>, ids: seq<string>): (r: seq<bool>)
    ensures |r| == |ids|
    decreases |ids|
  {
    if |ids| == 0 then []
    else [ids[0] !in recorded] + Runs(recorded + {ids[0]}, ids[1..])
  }

  /** A request runs exactly when its id is neither recorded nor requested before. */
  lemma {:induction false} RunsFirstTime(recorded: set<string>, ids: seq<string>, i: nat)
    requires i < |ids|
    ensures Runs(recorded, ids)[i] <==> ids[i] !in recorded && ids[i] !in ids[..i]
    decreases i
  {
    if i > 0 {
      RunsFirstTime(recorded + {ids[0]}, ids[1..], i - 1);
      assert ids[..i] == [ids[0]] + ids[1..][..i - 1];
    }
  }

  /** The same action never runs twice. */
  lemma RunsAtMostOnce(recorded: set<string>, ids: seq<string>, i: nat, j: nat)
    requires i < j < |ids| && ids[i] == ids[j]
    ensures !Runs(recorded, ids)[j]
  {
    RunsFirstTime(recorded, ids, j);
    assert ids[..j][i] == ids[j];
  }

  /** `f"move_{task_id}_{new_status}_{int(time.time())}"` */
  function MoveActionId(id: int, status: string, clock: nat): string {
    "move_" + ShowInt(id) + "_" + status + "_" + ShowNat(clock)
  }

  /** Presses of the same move in different seconds have different ids, so each can run. */
  lemma MoveIdsApart(id: int, status: string, c1: nat, c2: nat)
    requires c1 != c2
    ensures MoveActionId(id, status, c1) != MoveActionId(id, status, c2)
  {
    var p := "move_" + ShowInt(id) + "_" + status + "_";
    ShowNatInjective(c1, c2);
    assert MoveActionId(id, status, c1)[|p|..] == ShowNat(c1);
    assert MoveActionId(id, status, c2)[|p|..] == ShowNat(c2);
  }

  /**
   * move_task: a status change guarded by its action id. `res` is the
   * store's answer: `RowNotFound` for the exception a vanished id raises
   * on a move that runs, `Success` otherwise (also when the guard skips).
   */
  method MoveTask(guard: ActionGuard, table: TaskTable, id: int, newStatus: string, clock: nat, now: int)
    returns (ran: bool, res: Outcome)
    requires table.Valid()
    modifies guard, table
    ensures ran <==> MoveActionId(id, newStatus, clock) !in old(guard.performed)
    ensures res == Failure(RowNotFound) <==> ran && IndexOf(old(table.rows), id).None?
    ensures res == Success || res == Failure(RowNotFound)
    ensures guard.performed == old(guard.performed) + {MoveActionId(id, newStatus, clock)}
    ensures table.Valid() && table.nextId == old(table.nextId)
    ensures !ran || IndexOf(old(table.rows), id).None? ==> table.rows == old(table.rows)
    ensures ran && IndexOf(old(table.rows), id).Some? ==>
      table.rows == MoveRows(old(table.rows), IndexOf(old(table.rows), id).value, newStatus, now)
    ensures (ran && IndexOf(old(table.rows), id).Some?
      && old(table.rows)[IndexOf(old(table.rows), id).value].status != newStatus) ==>
      forall s :: old(Dense(table.rows, s)) ==> Dense(table.rows, s)
  {
    var actionId := MoveActionId(id, newStatus, clock);
    ran := guard.Perform(actionId);
    res := Success;
    if ran {
      res := table.UpdateTaskStatus(id, newStatus, now);
    }
  }

  /**
   * The "→" button on a card in the column `status`: the move goes to the
   * next status, which differs from the card's own, so every partition
   * that was dense stays dense.
   */
  method PressNext(guard: ActionGuard, table: TaskTable, id: int, status: string, clock: nat, now: int)
    returns (ran: bool, res: Outcome)
    requires table.Valid() && KnownStatus(status)
    modifies guard, table
    ensures ran <==> MoveActionId(id, NextStatus(status), clock) !in old(guard.performed)
    ensures res == Failure(RowNotFound) <==> ran && IndexOf(old(table.rows), id).None?
    ensures res == Success || res == Failure(RowNotFound)
    ensures guard.performed == old(guard.performed) + {MoveActionId(id, NextStatus(status), clock)}
    ensures table.Valid() && table.nextId == old(table.nextId)
    ensures !ran || IndexOf(old(table.rows), id).None? ==> table.rows == old(table.rows)
    ensures ran && IndexOf(old(table.rows), id).Some? ==>
      table.rows == MoveRows(old(table.rows), IndexOf(old(table.rows), id).value, NextStatus(status), now)
    ensures IndexOf(old(table.rows), id).Some? && old(table.rows)[IndexOf(old(table.rows), id).value].status == status ==>
      forall s :: old(Dense(table.rows, s)) ==> Dense(table.rows, s)
  {
    var next := NextStatus(status);
    ran, res := MoveTask(guard, table, id, next, clock, now);
  }
}
