/**
 The contest status sweep: the `UPDATE Contest SET Status = CASE … END WHERE
 Status NOT IN ('Cancelled')` statement run on the home page and by the
 status-refresh endpoint. The comparisons follow SQL's three-valued logic, so
 a NULL start or end date makes its comparisons UNKNOWN rather than false.
 */
module StatusSweep {
  import opened Domain

  /** SQL truth values. */
  datatype Truth = True | False | Unknown

  /** `a < b` over nullable timestamps. */
  function Less(a: Option<int>, b: Option<int>): Truth {
    if a.None? || b.None? then Unknown
    else if a.value < b.value then True else False
  }

  /** `a <= b` over nullable timestamps. */
  function AtMost(a: Option<int>, b: Option<int>): Truth {
    if a.None? || b.None? then Unknown
    else if a.value <= b.value then True else False
  }

  /** SQL `AND`: FALSE wins over UNKNOWN. */
  function And(a: Truth, b: Truth): Truth {
    if a == False || b == False then False
    else if a == True && b == True then True
    else Unknown
  }

  /** `x BETWEEN lo AND hi`, which SQL defines as `lo <= x AND x <= hi`. */
  function Between(x: Option<int>, lo: Option<int>, hi: Option<int>): Truth {
    And(AtMost(lo, x), AtMost(x, hi))
  }

  /**
   The new status the CASE expression computes for a contest that is not
   Cancelled. A WHEN arm is taken only when its condition is TRUE; otherwise
   the ELSE arm keeps the old status.
   */
  function NewStatus(now: int, startDate: Option<int>, endDate: Option<int>, status: ContestStatus): (s: ContestStatus)
    // with both dates present the window decides, inclusive at both ends
    ensures startDate.Some? && endDate.Some? ==>
      && (now < startDate.value ==> s == Upcoming)
      && (startDate.value <= now <= endDate.value ==> s == Active)
      && (endDate.value < now && startDate.value <= now ==> s == Completed)
    // a NULL date disables every arm that compares with it
    ensures startDate.None? && endDate.None? ==> s == status
    ensures startDate.None? && endDate.Some? ==> s == (if endDate.value < now then Completed else status)
    ensures startDate.Some? && endDate.None? ==> s == (if now < startDate.value then Upcoming else status)
  {
    var t := Some(now);
    if Less(t, startDate) == True then Upcoming
    else if Between(t, startDate, endDate) == True then Active
    else if Less(endDate, t) == True then Completed
    else status
  }

  /** Where `now` lies relative to a window whose both ends are known: before it, inside it (ends included), or after it. */
  function WindowStatus(now: int, startDate: int, endDate: int): ContestStatus {
    if now < startDate then Upcoming
    else if now <= endDate then Active
    else Completed
  }

  /** The sweep applied to one row: Cancelled rows are outside the WHERE clause. */
  function SweepContest(now: int, c: Contest): (r: Contest)
    ensures r.startDate == c.startDate && r.endDate == c.endDate
    ensures c.status == Cancelled ==> r == c
    ensures c.status != Cancelled ==> r.status != Cancelled
    // both dates present: the window decides
    ensures c.status != Cancelled && c.startDate.Some? && c.endDate.Some? ==>
      r.status == WindowStatus(now, c.startDate.value, c.endDate.value)
    // a NULL date disables only the arms that compare with it
    ensures c.status != Cancelled && c.startDate.None? && c.endDate.None? ==> r == c
    ensures c.status != Cancelled && c.startDate.None? && c.endDate.Some? ==>
      r.status == (if c.endDate.value < now then Completed else c.status)
    ensures c.status != Cancelled && c.startDate.Some? && c.endDate.None? ==>
      r.status == (if now < c.startDate.value then Upcoming else c.status)
  {
    if c.status == Cancelled then c
    else c.(status := NewStatus(now, c.startDate, c.endDate, c.status))
  }

  /** The UPDATE over the whole Contest table at time `now`. */
  function Sweep(now: int, table: map<int, Contest>): (t: map<int, Contest>)
    ensures t.Keys == table.Keys
    ensures forall id :: id in table ==> t[id].startDate == table[id].startDate && t[id].endDate == table[id].endDate
    ensures forall id :: id in table && table[id].status == Cancelled ==> t[id] == table[id]
    ensures forall id :: id in table && table[id].status != Cancelled ==> t[id].status != Cancelled
    ensures forall id :: id in table && table[id].status != Cancelled && table[id].startDate.Some? && table[id].endDate.Some? ==>
      t[id].status == WindowStatus(now, table[id].startDate.value, table[id].endDate.value)
    ensures forall id :: id in table && table[id].status != Cancelled && table[id].startDate.None? && table[id].endDate.None? ==>
      t[id] == table[id]
    ensures forall id :: id in table && table[id].status != Cancelled && table[id].startDate.None? && table[id].endDate.Some? ==>
      t[id].status == (if table[id].endDate.value < now then Completed else table[id].status)
    ensures forall id :: id in table && table[id].status != Cancelled && table[id].startDate.Some? && table[id].endDate.None? ==>
      t[id].status == (if now < table[id].startDate.value then Upcoming else table[id].status)
  {
    map id | id in table :: SweepContest(now, table[id])
  }

  /** With both dates present the ELSE arm is never taken, even when the start is after the end. */
  lemma ElseArmUnreachable(now: int, startDate: int, endDate: int, status: ContestStatus)
    ensures NewStatus(now, Some(startDate), Some(endDate), status) in {Upcoming, Active, Completed}
  {
  }

  /** A contest whose end precedes its start is Upcoming before the start and Completed from it on, never Active. */
  lemma InvertedWindowNeverActive(now: int, startDate: int, endDate: int, status: ContestStatus)
    requires endDate < startDate
    ensures NewStatus(now, Some(startDate), Some(endDate), status) == (if now < startDate then Upcoming else Completed)
  {
  }

  /** The sweep forgets history: with both dates present, the old status of a non-Cancelled contest does not matter. */
  lemma SweepForgetsOldStatus(now: int, c1: Contest, c2: Contest)
    requires c1.startDate.Some? && c1.endDate.Some?
    requires c1.startDate == c2.startDate && c1.endDate == c2.endDate
    requires c1.status != Cancelled && c2.status != Cancelled
    ensures SweepContest(now, c1) == SweepContest(now, c2)
  {
  }

  /** Sweeping twice at the same time is sweeping once. */
  lemma SweepIdempotent(now: int, table: map<int, Contest>)
    ensures Sweep(now, Sweep(now, table)) == Sweep(now, table)
  {
    var once := Sweep(now, table);
    forall id | id in once
      ensures SweepContest(now, once[id]) == once[id]
    {
    }
  }

  /** Position of a status on the time-driven path Upcoming, Active, Completed. */
  function Phase(s: ContestStatus): nat {
    match s
    case Upcoming => 0
    case Active => 1
    case Completed => 2
    case Cancelled => 3
  }

  /** With fixed dates, present or NULL, a later sweep never moves a contest back along that path. */
  lemma SweepMonotoneInTime(now1: int, now2: int, c: Contest)
    requires now1 <= now2
    requires c.status != Cancelled
    ensures Phase(SweepContest(now1, c).status) <= Phase(SweepContest(now2, c).status)
  {
  }

  /** Completed is not terminal: a contest marked Completed while its window is still open is swept back to Active. */
  lemma CompletedIsNotTerminal()
    ensures SweepContest(5, Contest(Some(0), Some(10), Completed)).status == Active
  {
  }

  /** Cancelled is never entered by the sweep and never left by it. */
  lemma CancelledOnlyFromCancelled(now: int, table: map<int, Contest>, id: int)
    requires id in table
    ensures Sweep(now, table)[id].status == Cancelled <==> table[id].status == Cancelled
  {
  }
}
