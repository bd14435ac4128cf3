/** Google's client-side throttling on top of the rolling window. */
module Breaker {
  import opened GoArith
  import opened WindowLog
  import opened WindowSpec
  import opened Collection
  import opened Wrappers

  const K := 1.5
  const PROTECTION := 5
  const BUCKETS := 40
  const BUCKET_DURATION := 250

  /** The share of calls to drop. */
  function DropRatio(accepts: int, total: int): real
    requires total >= 0
  {
    var ratio := ((total - PROTECTION) as real - K * accepts as real) / (total + 1) as real;
    if ratio > 0.0 then ratio else 0.0
  }

  /** A call is rejected when the ratio is positive and the random draw falls below it. */
  predicate Rejects(accepts: int, total: int, draw: real)
    requires total >= 0
  {
    var ratio := DropRatio(accepts, total);
    ratio > 0.0 && draw < ratio
  }

  /** The draw falls below the share of the calls beyond five and beyond one and a half times the accepted ones. */
  predicate BeyondShare(accepts: real, total: int, draw: real) {
    draw * (total + 1) as real < total as real - 5.0 - 1.5 * accepts
  }

  /** A draw that is not negative rejects a call exactly then. */
  lemma RejectsExactly(accepts: int, total: int, draw: real)
    requires 0 <= accepts <= total && draw >= 0.0
    ensures Rejects(accepts, total, draw) <==> BeyondShare(accepts as real, total, draw)
  {
    var x, d := (total - PROTECTION) as real - K * accepts as real, (total + 1) as real;
    RatioAbove(x, d, draw);
    RatioAbove(x, d, 0.0);
    NotNegative(draw, d);
  }

  lemma NotNegative(x: real, y: real)
    requires x >= 0.0 && y >= 0.0
    ensures x * y >= 0.0
  {
  }

  lemma RatioAbove(x: real, d: real, draw: real)
    requires d > 0.0
    ensures draw < x / d <==> draw * d < x
  {
    var p := x / d;
    assert (p - draw) * d == x - draw * d;
    PositiveFactor(p - draw, d);
  }

  type Counts = (int, int)

  function Tally(acc: Counts, c: Cell): Counts {
    (acc.0 + Trunc(c.sum), acc.1 + c.count)
  }

  function HistoryOf(cells: seq<Cell>): Counts {
    Fold(Tally, (0, 0), cells)
  }

  /** Buckets that only ever received zeros and ones. */
  ghost predicate AreMarks(cells: seq<Cell>) {
    forall i :: 0 <= i < |cells| ==> IsMark(cells[i])
  }

  ghost predicate IsMark(c: Cell) {
    c.sum == Trunc(c.sum) as real && 0 <= Trunc(c.sum) <= c.count
  }

  lemma PlusKeepsMark(c: Cell, v: real)
    requires IsMark(c) && (v == 0.0 || v == 1.0)
    ensures IsMark(Plus(c, v))
  {
    assert Trunc(c.sum + v) == if v == 1.0 then Trunc(c.sum) + 1 else Trunc(c.sum);
  }

  lemma AddKeepsMarks(r: Ring, v: real, now: int, again: int)
    requires r.Valid() && AreMarks(r.cells) && (v == 0.0 || v == 1.0)
    ensures AreMarks(AddSpec(r, v, now, again).cells)
  {
    var s := Span(r, now);
    assert Advance(r.cells, 0) == r.cells;
    assert AddSpec(r, v, now, again).cells == PlusLast(Advance(r.cells, s), v);
    assert IsMark(EMPTY);
    PlusKeepsMark(Advance(r.cells, s)[|r.cells| - 1], v);
  }

  lemma VisitedAreMarks(r: Ring, now: int)
    requires r.Valid() && AreMarks(r.cells)
    ensures AreMarks(Visited(r, false, now))
  {
  }

  /** The history counts marks: ones are accepted calls, and all of them are calls. */
  lemma {:induction false} MarksTally(cells: seq<Cell>)
    requires AreMarks(cells)
    ensures HistoryOf(cells).0 as real == SumOf(cells)
    ensures HistoryOf(cells).1 == CountOf(cells)
    ensures 0 <= HistoryOf(cells).0 <= HistoryOf(cells).1
  {
    if cells != [] {
      assert IsMark(cells[|cells| - 1]);
      MarksTally(cells[..|cells| - 1]);
    }
  }

  datatype Error = ServiceUnavailable | Other(code: int)

  /** How the protected request ends. */
  datatype Outcome =
    // with an error or none, and what `acceptable` says of it
    | Returned(err: Option<Error>, acceptable: bool)
    | Panicked(value: int)
    // panic(nil): the deferred recover ends the panic and returns nil
    | PanickedNil
    // runtime.Goexit: deferred calls run, but nothing returns
    | Exited

  datatype Result =
    | Replied(err: Option<Error>)
    | Repanicked(value: int)
    | Gone

  class GoogleBreaker {
    const stat: RollingWindow

    ghost predicate Valid()
      reads stat, stat.win.buckets
    {
      stat.Valid() && !stat.ignoreCurrent && AreMarks(stat.State().cells)
    }

    constructor (now: int)
      ensures Valid() && stat.State() == NewRing(40, 250, now)
      ensures fresh(stat) && fresh(stat.win.buckets)
    {
      stat := new RollingWindow(BUCKETS, BUCKET_DURATION, false, now);
    }

    method History(now: int) returns (accepts: int, total: int)
      requires Valid()
      ensures (accepts, total) == HistoryOf(Visited(stat.State(), false, now))
      ensures 0 <= accepts <= total
    {
      VisitedAreMarks(stat.State(), now);
      MarksTally(Visited(stat.State(), false, now));
      var acc := stat.Reduce(Tally, (0, 0), now);
      accepts, total := acc.0, acc.1;
    }

    /** Whether the draw turns a call away that asks at `now`. */
    ghost predicate TurnsAway(now: int, draw: real)
      requires Valid()
      reads stat, stat.win.buckets
    {
      var cells := Visited(stat.State(), false, now);
      VisitedAreMarks(stat.State(), now);
      MarksTally(cells);
      Rejects(HistoryOf(cells).0, HistoryOf(cells).1, draw)
    }

    /** Of `n` calls in the window, of which `a` were accepted, with n - 5 > 1.5 a the share over n + 1 is rejected. */
    method Accept(now: int, draw: real) returns (rejected: bool)
      requires Valid()
      ensures rejected == TurnsAway(now, draw)
      ensures var cells := Visited(stat.State(), false, now);
        draw >= 0.0 ==> (rejected <==> BeyondShare(SumOf(cells), CountOf(cells), draw))
    {
      var accepts, total := History(now);
      var weightedAccepts := K * accepts as real;
      var dropRatio := ((total - PROTECTION) as real - weightedAccepts) / (total + 1) as real;
      rejected := dropRatio > 0.0 && draw < dropRatio;
      ghost var cells := Visited(stat.State(), false, now);
      VisitedAreMarks(stat.State(), now);
      MarksTally(cells);
      if draw >= 0.0 {
        RejectsExactly(accepts, total, draw);
      }
    }

    method MarkSuccess(now: int, again: int)
      requires Valid()
      modifies stat, stat.win.buckets
      ensures Valid() && stat.State() == AddSpec(old(stat.State()), 1.0, now, again)
    {
      AddKeepsMarks(stat.State(), 1.0, now, again);
      stat.Add(1.0, now, again);
    }

    method MarkFailure(now: int, again: int)
      requires Valid()
      modifies stat, stat.win.buckets
      ensures Valid() && stat.State() == AddSpec(old(stat.State()), 0.0, now, again)
    {
      AddKeepsMarks(stat.State(), 0.0, now, again);
      stat.Add(0.0, now, again);
    }

    /**
     Runs a request whose end is given by `outcome`, with the clock readings of its end. `fallback` is
     what the fallback returns, if there is one.
     */
    method DoReq(outcome: Outcome, fallback: Option<Option<Error>>, draw: real, start: int, now: int, again: int)
      returns (r: Result)
      requires Valid()
      modifies stat, stat.win.buckets
      ensures Valid()
      ensures old(TurnsAway(start, draw)) ==>
        && stat.State() == old(stat.State())
        && r == Replied(if fallback.Some? then fallback.value else Some(ServiceUnavailable))
      ensures !old(TurnsAway(start, draw)) && outcome.Returned? && outcome.acceptable ==>
        stat.State() == AddSpec(old(stat.State()), 1.0, now, again) && r == Replied(outcome.err)
      ensures !old(TurnsAway(start, draw)) && outcome.Returned? && !outcome.acceptable ==>
        stat.State() == AddSpec(old(stat.State()), 0.0, now, again) && r == Replied(outcome.err)
      ensures !old(TurnsAway(start, draw)) && outcome.Panicked? ==>
        stat.State() == AddSpec(old(stat.State()), 0.0, now, again) && r == Repanicked(outcome.value)
      ensures !old(TurnsAway(start, draw)) && outcome.PanickedNil? ==>
        stat.State() == old(stat.State()) && r == Replied(None)
      ensures !old(TurnsAway(start, draw)) && outcome.Exited? ==>
        stat.State() == old(stat.State()) && r == Gone
    {
      var rejected := Accept(start, draw);
      if rejected {
        if fallback.Some? {
          return Replied(fallback.value);
        }
        return Replied(Some(ServiceUnavailable));
      }
      match outcome
      case Returned(err, acceptable) =>
        if acceptable {
          MarkSuccess(now, again);
        } else {
          MarkFailure(now, again);
        }
        r := Replied(err);
      case Panicked(value) =>
        MarkFailure(now, again);
        r := Repanicked(value);
      case PanickedNil =>
        r := Replied(None);
      case Exited =>
        r := Gone;
    }
  }

  /** The marks of a log: accepted calls. */
  function Accepts(log: Log): nat {
    if log == [] then 0 else Accepts(log[..|log| - 1]) + (if log[|log| - 1].v == 1.0 then 1 else 0)
  }

  ghost predicate MarkLog(log: Log) {
    forall i :: 0 <= i < |log| ==> log[i].v == 0.0 || log[i].v == 1.0
  }

  lemma {:induction false} AcceptsIsSum(log: Log)
    requires MarkLog(log)
    ensures Accepts(log) as real == SumOfLog(log) && Accepts(log) <= |log|
  {
    if log != [] {
      AcceptsIsSum(log[..|log| - 1]);
    }
  }

  lemma {:induction false} AggIsMark(log: Log, origin: int, interval: int, slot: int)
    requires interval > 0 && MarkLog(log)
    ensures IsMark(Agg(log, origin, interval, slot))
  {
    if log != [] {
      AggIsMark(log[..|log| - 1], origin, interval, slot);
      PlusKeepsMark(Agg(log[..|log| - 1], origin, interval, slot), log[|log| - 1].v);
    }
  }

  lemma {:induction false} WithinIsMarkLog(log: Log, origin: int, interval: int, lo: int, hi: int)
    requires interval > 0 && MarkLog(log)
    ensures MarkLog(Within(log, origin, interval, lo, hi))
  {
    if log != [] {
      WithinIsMarkLog(log[..|log| - 1], origin, interval, lo, hi);
    }
  }

  /** The additions of the last `size` slots. */
  function Recent(log: Log, origin: int, interval: int, now: int, size: int): Log
    requires interval > 0
  {
    var slot := SlotOf(origin, interval, now);
    Within(log, origin, interval, slot - size, slot)
  }

  /** The history read off the buckets is a count over the log of marks of the slots in the window. */
  lemma HistoryIsLogCount(r: Ring, log: Log, origin: int, now: int)
    requires Refines(r, log, origin) && MarkLog(log) && LastAt(log, origin) <= now
    ensures var recent := Recent(log, origin, r.interval, now, |r.cells|);
      HistoryOf(Visited(r, false, now)) == (Accepts(recent), |recent|) && Accepts(recent) <= |recent|
  {
    var slot := SlotOf(origin, r.interval, now);
    var all := View(log, origin, r.interval, slot, |r.cells|);
    var recent := Recent(log, origin, r.interval, now, |r.cells|);
    var cells := Visited(r, false, now);
    VisitedExact(r, log, origin, now);
    TotalsAppend(cells, Empties(Span(r, now)));
    TotalsEmpties(Span(r, now));
    ViewTotals(log, origin, r.interval, slot, |r.cells|);
    forall i | 0 <= i < |cells| ensures IsMark(cells[i]) {
      assert cells[i] == all[i];
      AggIsMark(log, origin, r.interval, slot - |r.cells| + 1 + i);
    }
    MarksTally(cells);
    WithinIsMarkLog(log, origin, r.interval, slot - |r.cells|, slot);
    AcceptsIsSum(recent);
  }

  /** A share is dropped exactly when the requests exceed the accepted ones by the allowed factor. */
  lemma DropRatioRange(accepts: int, total: int)
    requires 0 <= accepts <= total
    ensures 0.0 <= DropRatio(accepts, total) < 1.0
    ensures DropRatio(accepts, total) > 0.0 <==> 2 * (total - PROTECTION) > 3 * accepts
  {
    var x := (total - PROTECTION) as real - K * accepts as real;
    var d := (total + 1) as real;
    RatioOf(x, d);
    assert x < d;
  }

  lemma RatioOf(x: real, d: real)
    requires d > 0.0
    ensures (x / d > 0.0 <==> x > 0.0) && (x < d ==> x / d < 1.0)
  {
    var p := x / d;
    assert p * d == x && (1.0 - p) * d == d - x;
    PositiveFactor(p, d);
    PositiveFactor(1.0 - p, d);
    assert x < d ==> (1.0 - p) * d > 0.0;
    assert x < d ==> 1.0 - p > 0.0;
  }

  lemma PositiveFactor(a: real, d: real)
    requires d > 0.0
    ensures a * d > 0.0 <==> a > 0.0
  {
    if a <= 0.0 {
      assert -a * d >= 0.0;
    }
  }

  lemma RatioOrder(x: real, d: real, y: real, e: real)
    requires d > 0.0 && e > 0.0 && x * e <= y * d
    ensures x / d <= y / e
  {
    var p, q := x / d, y / e;
    assert x == p * d && y == q * e;
    assert (p - q) * (d * e) <= 0.0;
  }

  /** One more failed call never lowers the share of dropped calls. */
  lemma FailureNeverLowers(accepts: int, total: int)
    requires 0 <= accepts <= total
    ensures DropRatio(accepts, total) <= DropRatio(accepts, total + 1)
  {
    var x := (total - PROTECTION) as real - K * accepts as real;
    var d := (total + 1) as real;
    assert x + 1.0 == (total + 1 - PROTECTION) as real - K * accepts as real;
    assert x * (d + 1.0) == x * d + x && (x + 1.0) * d == x * d + d;
    RatioOrder(x, d, x + 1.0, d + 1.0);
  }

  /** One more successful call never raises it. */
  lemma SuccessNeverRaises(accepts: int, total: int)
    requires 0 <= accepts <= total
    ensures DropRatio(accepts + 1, total + 1) <= DropRatio(accepts, total)
  {
    var x := (total - PROTECTION) as real - K * accepts as real;
    var d := (total + 1) as real;
    var y := (total + 1 - PROTECTION) as real - K * (accepts + 1) as real;
    assert y == x - 0.5;
    if y > 0.0 {
      assert y * d == x * d - 0.5 * d && x * (d + 1.0) == x * d + x;
      RatioOrder(y, d + 1.0, x, d);
    } else {
      RatioOf(y, d + 1.0);
    }
  }

  /** The drop ratio read off the log. */
  function RatioOnLog(log: Log, origin: int, interval: int, now: int, size: int): real
    requires interval > 0
  {
    var recent := Recent(log, origin, interval, now, size);
    DropRatio(Accepts(recent), |recent|)
  }

  /** A further mark in one of the slots of the window is one more recent mark. */
  lemma OneMoreMark(log: Log, e: Entry, origin: int, interval: int, now: int, size: int)
    requires interval > 0 && MarkLog(log)
    requires var slot := SlotOf(origin, interval, now); slot - size < SlotOf(origin, interval, e.at) <= slot
    ensures var (before, after) :=
        (Recent(log, origin, interval, now, size), Recent(log + [e], origin, interval, now, size));
      && |after| == |before| + 1
      && Accepts(after) == Accepts(before) + (if e.v == 1.0 then 1 else 0)
      && Accepts(before) <= |before|
  {
    var before := Recent(log, origin, interval, now, size);
    assert (log + [e])[..|log|] == log;
    assert Recent(log + [e], origin, interval, now, size) == before + [e];
    assert (before + [e])[..|before|] == before;
    var slot := SlotOf(origin, interval, now);
    WithinIsMarkLog(log, origin, interval, slot - size, slot);
    AcceptsIsSum(before);
  }

  /** A recorded failure never lowers the share of dropped calls, and a recorded success never raises it. */
  lemma MarksMoveRatio(log: Log, at: int, origin: int, interval: int, now: int, size: int)
    requires interval > 0 && MarkLog(log)
    requires var slot := SlotOf(origin, interval, now); slot - size < SlotOf(origin, interval, at) <= slot
    ensures RatioOnLog(log, origin, interval, now, size)
         <= RatioOnLog(log + [Entry(at, 0.0)], origin, interval, now, size)
    ensures RatioOnLog(log + [Entry(at, 1.0)], origin, interval, now, size)
         <= RatioOnLog(log, origin, interval, now, size)
  {
    var before := Recent(log, origin, interval, now, size);
    OneMoreMark(log, Entry(at, 0.0), origin, interval, now, size);
    OneMoreMark(log, Entry(at, 1.0), origin, interval, now, size);
    FailureNeverLowers(Accepts(before), |before|);
    SuccessNeverRaises(Accepts(before), |before|);
  }

  /** Marks that are a full window old are in none of its slots. */
  lemma {:induction false} QuietWindowIsEmpty(log: Log, origin: int, interval: int, now: int, size: int)
    requires interval > 0 && forall i :: 0 <= i < |log| ==> log[i].at + interval * size <= now
    ensures Recent(log, origin, interval, now, size) == []
  {
    if log != [] {
      var e := log[|log| - 1];
      QuietWindowIsEmpty(log[..|log| - 1], origin, interval, now, size);
      QuotientShift(now - origin, interval, size);
      QuotientMonotone(e.at - origin, now - origin - interval * size, interval);
    }
  }

  /** What happens at the breaker: a call asks to be let in, and a call that was let in ends. */
  datatype Event =
    | Begin(id: nat, draw: real, at: int)
    | End(id: nat, outcome: Outcome, now: int, again: int)

  datatype BreakerRun = BreakerRun(ring: Ring, inFlight: set<nat>, marks: seq<Tick>, admitted: nat, vanished: nat)

  function Step(s: BreakerRun, e: Event): (s': BreakerRun)
    requires s.ring.Valid() && AreMarks(s.ring.cells)
    ensures s'.ring.Valid() && AreMarks(s'.ring.cells)
  {
    match e
    case Begin(id, draw, at) =>
      VisitedAreMarks(s.ring, at);
      MarksTally(Visited(s.ring, false, at));
      var h := HistoryOf(Visited(s.ring, false, at));
      if id in s.inFlight || Rejects(h.0, h.1, draw) then s
      else s.(inFlight := s.inFlight + {id}, admitted := s.admitted + 1)
    case End(id, outcome, now, again) =>
      if id !in s.inFlight then s
      else
        var left := s.inFlight - {id};
        match outcome {
          case Returned(_, acceptable) => Marked(s, left, if acceptable then 1.0 else 0.0, now, again)
          case Panicked(_) => Marked(s, left, 0.0, now, again)
          case PanickedNil => s.(inFlight := left, vanished := s.vanished + 1)
          case Exited => s.(inFlight := left, vanished := s.vanished + 1)
        }
  }

  function Marked(s: BreakerRun, left: set<nat>, v: real, now: int, again: int): (s': BreakerRun)
    requires s.ring.Valid() && AreMarks(s.ring.cells) && (v == 0.0 || v == 1.0)
    ensures s'.ring.Valid() && AreMarks(s'.ring.cells)
  {
    AddKeepsMarks(s.ring, v, now, again);
    s.(inFlight := left, ring := AddSpec(s.ring, v, now, again), marks := s.marks + [Tick(v, now, again)])
  }

  function Run(r: Ring, events: seq<Event>): (s: BreakerRun)
    requires r.Valid() && AreMarks(r.cells)
    ensures s.ring.Valid() && AreMarks(s.ring.cells)
  {
    if events == [] then BreakerRun(r, {}, [], 0, 0)
    else Step(Run(r, events[..|events| - 1]), events[|events| - 1])
  }

  /** The window is the run of the marks, which are zeros and ones, one for each call that left one. */
  ghost predicate Accounted(r: Ring, s: BreakerRun)
    requires r.Valid()
  {
    && s.ring == RunAdds(r, s.marks)
    && |s.marks| + |s.inFlight| + s.vanished == s.admitted
    && forall i :: 0 <= i < |s.marks| ==> s.marks[i].v == 0.0 || s.marks[i].v == 1.0
  }

  lemma OneMoreMarkAdded(r: Ring, marks: seq<Tick>, t: Tick)
    requires r.Valid()
    ensures RunAdds(r, marks + [t]) == AddSpec(RunAdds(r, marks), t.v, t.now, t.again)
  {
    assert (marks + [t])[..|marks|] == marks;
  }

  lemma EndKeepsAccount(r: Ring, s: BreakerRun, e: Event)
    requires r.Valid() && s.ring.Valid() && AreMarks(s.ring.cells) && Accounted(r, s) && e.End?
    ensures Accounted(r, Step(s, e))
  {
    if e.id in s.inFlight {
      assert |s.inFlight - {e.id}| == |s.inFlight| - 1;
      OneMoreMarkAdded(r, s.marks, Tick(1.0, e.now, e.again));
      OneMoreMarkAdded(r, s.marks, Tick(0.0, e.now, e.again));
    }
  }

  lemma BeginKeepsAccount(r: Ring, s: BreakerRun, e: Event)
    requires r.Valid() && s.ring.Valid() && AreMarks(s.ring.cells) && Accounted(r, s) && e.Begin?
    ensures Accounted(r, Step(s, e))
  {
  }

  /**
   Over every interleaving of calls, the window receives one addition for each call that was let in
   and has ended, by return or by panic, and none for a rejected call. The one exception is a call
   that ends without its deferred recover seeing a panic.
   */
  lemma {:induction false} OneMarkPerFinishedCall(r: Ring, events: seq<Event>)
    requires r.Valid() && AreMarks(r.cells)
    ensures Accounted(r, Run(r, events))
  {
    if events != [] {
      var before, e := events[..|events| - 1], events[|events| - 1];
      OneMarkPerFinishedCall(r, before);
      if e.Begin? {
        BeginKeepsAccount(r, Run(r, before), e);
      } else {
        EndKeepsAccount(r, Run(r, before), e);
      }
    }
  }

  /** How many events of a run find the state as a predicate says. */
  ghost function Happened(r: Ring, events: seq<Event>, p: (BreakerRun, Event) -> bool): nat
    requires r.Valid() && AreMarks(r.cells)
  {
    if events == [] then 0
    else
      var before, e := events[..|events| - 1], events[|events| - 1];
      Happened(r, before, p) + (if p(Run(r, before), e) then 1 else 0)
  }

  function MarksWith(marks: seq<Tick>, v: real): nat {
    if marks == [] then 0 else MarksWith(marks[..|marks| - 1], v) + (if marks[|marks| - 1].v == v then 1 else 0)
  }

  /** A call that is in flight ends. */
  predicate CallEnds(s: BreakerRun, e: Event) {
    e.End? && e.id in s.inFlight
  }

  predicate EndsAccepted(s: BreakerRun, e: Event) {
    CallEnds(s, e) && e.outcome.Returned? && e.outcome.acceptable
  }

  predicate EndsBadly(s: BreakerRun, e: Event) {
    CallEnds(s, e) && (e.outcome.Panicked? || (e.outcome.Returned? && !e.outcome.acceptable))
  }

  predicate EndsUnseen(s: BreakerRun, e: Event) {
    CallEnds(s, e) && (e.outcome.PanickedNil? || e.outcome.Exited?)
  }

  /** A call that is not in flight asks, and the draw does not fall below the share. */
  ghost predicate IsLetIn(s: BreakerRun, e: Event) {
    && e.Begin? && e.id !in s.inFlight && s.ring.Valid()
    && var cells := Visited(s.ring, false, e.at);
       !BeyondShare(SumOf(cells), CountOf(cells), e.draw)
  }

  lemma OneMarkMore(marks: seq<Tick>, t: Tick, v: real)
    ensures MarksWith(marks + [t], v) == MarksWith(marks, v) + (if t.v == v then 1 else 0)
  {
    assert (marks + [t])[..|marks|] == marks;
  }

  lemma EndLeavesMark(s: BreakerRun, e: Event)
    requires s.ring.Valid() && AreMarks(s.ring.cells) && e.End?
    ensures var s' := Step(s, e);
      && MarksWith(s'.marks, 1.0) == MarksWith(s.marks, 1.0) + (if EndsAccepted(s, e) then 1 else 0)
      && MarksWith(s'.marks, 0.0) == MarksWith(s.marks, 0.0) + (if EndsBadly(s, e) then 1 else 0)
      && s'.vanished == s.vanished + (if EndsUnseen(s, e) then 1 else 0)
      && s'.admitted == s.admitted
  {
    OneMarkMore(s.marks, Tick(1.0, e.now, e.again), 1.0);
    OneMarkMore(s.marks, Tick(1.0, e.now, e.again), 0.0);
    OneMarkMore(s.marks, Tick(0.0, e.now, e.again), 1.0);
    OneMarkMore(s.marks, Tick(0.0, e.now, e.again), 0.0);
  }

  lemma BeginCounts(s: BreakerRun, e: Event)
    requires s.ring.Valid() && AreMarks(s.ring.cells) && e.Begin? && e.draw >= 0.0
    ensures var s' := Step(s, e);
      && s'.admitted == s.admitted + (if IsLetIn(s, e) then 1 else 0)
      && (s'.ring, s'.marks, s'.vanished) == (s.ring, s.marks, s.vanished)
  {
    var cells := Visited(s.ring, false, e.at);
    VisitedAreMarks(s.ring, e.at);
    MarksTally(cells);
    RejectsExactly(HistoryOf(cells).0, HistoryOf(cells).1, e.draw);
  }

  /**
   Over every run the marks say how the calls ended: a one for each that returned something acceptable,
   a zero for each that returned something else or panicked, and none for the others; and as many calls
   were let in as asked without the draw falling below the share.
   */
  lemma {:induction false} MarksSayHowCallsEnded(r: Ring, events: seq<Event>)
    requires r.Valid() && AreMarks(r.cells)
    requires forall i :: 0 <= i < |events| && events[i].Begin? ==> events[i].draw >= 0.0
    ensures var s := Run(r, events);
      && MarksWith(s.marks, 1.0) == Happened(r, events, EndsAccepted)
      && MarksWith(s.marks, 0.0) == Happened(r, events, EndsBadly)
      && s.vanished == Happened(r, events, EndsUnseen)
      && s.admitted == Happened(r, events, IsLetIn)
  {
    if events != [] {
      var before, e := events[..|events| - 1], events[|events| - 1];
      MarksSayHowCallsEnded(r, before);
      if e.Begin? {
        BeginCounts(Run(r, before), e);
      } else {
        EndLeavesMark(Run(r, before), e);
      }
    }
  }

  /**
   Whoever asks next is judged by the marks of the window alone, and is let in for certain once these
   hold no mark.
   */
  ghost predicate DecidesOnLog(s: BreakerRun, origin: int, now: int, draw: real)
    requires s.ring.Valid()
  {
    var recent := Recent(LogOf(s.marks), origin, s.ring.interval, now, |s.ring.cells|);
    && HistoryOf(Visited(s.ring, false, now)) == (Accepts(recent), |recent|)
    && (Rejects(Accepts(recent), |recent|, draw) <==> BeyondShare(Accepts(recent) as real, |recent|, draw))
    && (2 * (|recent| - PROTECTION) <= 3 * Accepts(recent) ==> !Rejects(Accepts(recent), |recent|, draw))
    && (recent == [] ==> !Rejects(Accepts(recent), |recent|, draw))
  }

  /** So it is after every run of calls whose marks were added in steady time. */
  lemma BreakerDecidesOnLog(size: int, interval: int, origin: int, events: seq<Event>, now: int, draw: real)
    requires size > 0 && interval > 0 && draw >= 0.0
    ensures var s := Run(FreshRing(size, interval, origin), events);
      Steady(s.marks, origin, interval) && LastAt(LogOf(s.marks), origin) <= now ==> DecidesOnLog(s, origin, now, draw)
  {
    var s := Run(FreshRing(size, interval, origin), events);
    OneMarkPerFinishedCall(FreshRing(size, interval, origin), events);
    if Steady(s.marks, origin, interval) && LastAt(LogOf(s.marks), origin) <= now {
      MarksOfWindow(size, interval, origin, s.marks, now);
      var recent := Recent(LogOf(s.marks), origin, interval, now, size);
      DropRatioRange(Accepts(recent), |recent|);
      RejectsExactly(Accepts(recent), |recent|, draw);
    }
  }

  /** After a full window without a mark the breaker lets every call in. */
  lemma QuietBreakerAdmits(size: int, interval: int, origin: int, events: seq<Event>, now: int, draw: real)
    requires size > 0 && interval > 0 && draw >= 0.0
    ensures var s := Run(FreshRing(size, interval, origin), events);
      && Steady(s.marks, origin, interval) && LastAt(LogOf(s.marks), origin) <= now
      && (forall i :: 0 <= i < |s.marks| ==> s.marks[i].again + interval * size <= now)
      ==> var h := HistoryOf(Visited(s.ring, false, now)); h == (0, 0) && !Rejects(h.0, h.1, draw)
  {
    var s := Run(FreshRing(size, interval, origin), events);
    OneMarkPerFinishedCall(FreshRing(size, interval, origin), events);
    if && Steady(s.marks, origin, interval) && LastAt(LogOf(s.marks), origin) <= now
       && (forall i :: 0 <= i < |s.marks| ==> s.marks[i].again + interval * size <= now)
    {
      MarksOfWindow(size, interval, origin, s.marks, now);
      QuietWindowIsEmpty(LogOf(s.marks), origin, interval, now, size);
      DropRatioRange(0, 0);
    }
  }

  lemma MarksOfWindow(size: int, interval: int, origin: int, marks: seq<Tick>, now: int)
    requires size > 0 && interval > 0
    requires Steady(marks, origin, interval) && LastAt(LogOf(marks), origin) <= now
    requires forall i :: 0 <= i < |marks| ==> marks[i].v == 0.0 || marks[i].v == 1.0
    ensures var recent := Recent(LogOf(marks), origin, interval, now, size);
      var cells := Visited(RunAdds(FreshRing(size, interval, origin), marks), false, now);
      && HistoryOf(cells) == (Accepts(recent), |recent|)
      && Accepts(recent) <= |recent|
  {
    RunRefinesLog(size, interval, origin, marks);
    MarksAreLogged(marks);
    HistoryIsLogCount(RunAdds(FreshRing(size, interval, origin), marks), LogOf(marks), origin, now);
  }

  lemma MarksAreLogged(marks: seq<Tick>)
    requires forall i :: 0 <= i < |marks| ==> marks[i].v == 0.0 || marks[i].v == 1.0
    ensures MarkLog(LogOf(marks))
  {
  }

  function FreshRing(size: int, interval: int, origin: int): (r: Ring)
    requires size > 0 && interval > 0
    ensures r.Valid() && AreMarks(r.cells)
  {
    NewRing(size, interval, origin)
  }
}
