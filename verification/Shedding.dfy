/** The adaptive shedder: what it estimates from its two windows, and when it drops a request. */
module Shedding {
  import opened GoArith
  import opened WindowLog
  import opened WindowSpec
  import opened Collection

  const DEFAULT_MIN_RT := 1000.0
  const SECOND := 1_000_000_000
  const COOL_OFF := 1_000_000_000
  const MILLISECOND := 1_000_000
  const FLYING_BETA := 0.9

  lemma FloorIs(x: real)
    ensures x - 1.0 < x.Floor as real <= x
  {
  }

  lemma WholeIs(k: int)
    ensures (k as real).Floor == k
  {
  }

  /** math.Round: the nearest whole number, halves away from zero. */
  function Round(x: real): (r: real)
    ensures r == r.Floor as real
    ensures x >= 0.0 ==> r - 0.5 <= x < r + 0.5
    ensures x < 0.0 ==> r - 0.5 < x <= r + 0.5
  {
    var k := if x >= 0.0 then (x + 0.5).Floor else -((-x + 0.5).Floor);
    FloorIs(x + 0.5);
    FloorIs(-x + 0.5);
    WholeIs(k);
    k as real
  }

  /** math.Ceil: the least whole number that is not less. */
  function Ceil(x: real): (r: real)
    ensures r == r.Floor as real && r - 1.0 < x <= r
  {
    var k := -((-x).Floor);
    FloorIs(-x);
    WholeIs(k);
    k as real
  }

  function LargerSum(result: real, b: Cell): real {
    if b.sum > result then b.sum else result
  }

  function SmallerMean(result: real, b: Cell): real {
    if b.count <= 0 then result
    else
      var avg := Round(b.sum / b.count as real);
      if avg < result then avg else result
  }

  function MaxPassOf(cells: seq<Cell>): int {
    Trunc(Fold(LargerSum, 1.0, cells))
  }

  function MinRtOf(cells: seq<Cell>): real {
    Fold(SmallerMean, DEFAULT_MIN_RT, cells)
  }

  /** The whole intervals in a second. */
  function PerSecond(interval: int): (windows: int)
    requires interval > 0
    ensures windows * interval <= SECOND < (windows + 1) * interval
  {
    WholeParts(SECOND, interval);
    SECOND / interval
  }

  lemma WholeParts(a: int, b: int)
    requires b > 0
    ensures (a / b) * b <= a < (a / b + 1) * b
  {
    assert (a / b + 1) * b == (a / b) * b + b;
  }

  /** Passes per second at best, times seconds per request at best, and at least one. */
  function Capacity(maxPass: int, windows: int, minRt: real): (r: int)
    ensures r >= 1
  {
    var capacity := (maxPass * windows) as real * (minRt / 1000.0);
    Trunc(if capacity > 1.0 then capacity else 1.0)
  }

  /** Passes per second at best, times milliseconds per request at best. */
  function Product(maxPass: int, windows: int, minRt: real): real {
    (maxPass * windows) as real * minRt
  }

  lemma ThousandthOfProduct(x: real, y: real)
    ensures 1000.0 * (x * (y / 1000.0)) == x * y
  {
    var z := y / 1000.0;
    assert y == 1000.0 * z;
    assert x * y == 1000.0 * (x * z);
  }

  /** The capacity is the thousandth of the product, rounded down, and at least one. */
  lemma CapacityIs(maxPass: int, windows: int, minRt: real)
    ensures var (r, x) := (Capacity(maxPass, windows, minRt), Product(maxPass, windows, minRt));
      && (x < 2000.0 ==> r == 1)
      && (x >= 2000.0 ==> 1000.0 * r as real <= x < 1000.0 * (r + 1) as real)
  {
    ThousandthOfProduct((maxPass * windows) as real, minRt);
  }

  /** More than one request, and more than the thousandth of the product. */
  predicate Overfull(n: int, product: real) {
    n >= 2 && 1000.0 * n as real > product
  }

  /** The moving average of the requests in flight: nine parts of what it was and one of what is. */
  function Smooth(avg: real, flying: int): (r: real)
    ensures 10.0 * r == 9.0 * avg + flying as real
  {
    avg * FLYING_BETA + flying as real * (1.0 - FLYING_BETA)
  }

  /** When the shedder last dropped, and whether it still remembers. */
  datatype Drops = Drops(dropTime: int, droppedRecently: bool)

  predicate Hot(d: Drops, now: int) {
    d.droppedRecently && d.dropTime != 0 && now - d.dropTime < COOL_OFF
  }

  /** Looking whether it is hot forgets a drop that has cooled off. */
  function Looked(d: Drops, now: int): Drops {
    if d.droppedRecently && d.dropTime != 0 && !Hot(d, now) then d.(droppedRecently := false) else d
  }

  /** Both the requests in flight and their moving average are above the limit. */
  predicate Exceeds(avgFlying: real, flying: int, limit: int) {
    Trunc(avgFlying) > limit && flying > limit
  }

  /** That is when both are overfull, so that a burst is spared while the average is low. */
  lemma ExceedsExactly(avg: real, flying: int, maxPass: int, windows: int, minRt: real)
    ensures var x := Product(maxPass, windows, minRt);
      Exceeds(avg, flying, Capacity(maxPass, windows, minRt)) <==> Overfull(flying, x) && Overfull(avg.Floor, x)
  {
    CapacityIs(maxPass, windows, minRt);
  }

  /** The memory of drops after a request that was dropped or let in. */
  function AfterAllow(d: Drops, overloaded: bool, high: bool, now: int, dropAt: int): (r: (bool, Drops)) {
    var dropped := (overloaded || Hot(d, now)) && high;
    var looked := if overloaded then d else Looked(d, now);
    (dropped, if dropped then Drops(dropAt, true) else looked)
  }

  /**
   The clock readings of one request: for the cool-off time, for the two reductions, for the cool-off
   time once more in the log message, and for noting a drop.
   */
  datatype Readings = Readings(hot: int, pass: int, rt: int, log: int, drop: int)

  class AdaptiveShedder {
    const windows: int
    const passCounter: RollingWindow
    const rtCounter: RollingWindow
    var flying: int
    var avgFlying: real
    var dropTime: int
    var droppedRecently: bool

    ghost predicate Valid()
      reads passCounter, rtCounter
    {
      && passCounter.Valid() && rtCounter.Valid()
      && passCounter.ignoreCurrent && rtCounter.ignoreCurrent
      && passCounter != rtCounter && passCounter.win.buckets != rtCounter.win.buckets
    }

    function Memory(): Drops
      reads this
    {
      Drops(dropTime, droppedRecently)
    }

    /** The concurrency the system can take, judged by the completed intervals at the two readings. */
    ghost function Limit(passAt: int, rtAt: int): (r: int)
      requires Valid()
      reads passCounter, rtCounter, passCounter.win.buckets, rtCounter.win.buckets
      ensures r >= 1
    {
      var passes := Visited(passCounter.State(), true, passAt);
      var rts := Visited(rtCounter.State(), true, rtAt);
      Capacity(MaxPassOf(passes), windows, MinRtOf(rts))
    }

    /** Passes per second at best times milliseconds per request at best, at the two readings. */
    ghost function Throughput(passAt: int, rtAt: int): real
      requires Valid()
      reads passCounter, rtCounter, passCounter.win.buckets, rtCounter.win.buckets
    {
      var passes := Visited(passCounter.State(), true, passAt);
      var rts := Visited(rtCounter.State(), true, rtAt);
      Product(MaxPassOf(passes), windows, MinRtOf(rts))
    }

    constructor (buckets: int, bucketDuration: int, now: int)
      requires buckets > 0 && bucketDuration > 0
      ensures Valid() && flying == 0 && avgFlying == 0.0 && Memory() == Drops(0, false)
      ensures passCounter.State() == rtCounter.State() == NewRing(buckets, bucketDuration, now)
      ensures windows * bucketDuration <= SECOND < (windows + 1) * bucketDuration
    {
      windows := PerSecond(bucketDuration);
      passCounter := new RollingWindow(buckets, bucketDuration, true, now);
      rtCounter := new RollingWindow(buckets, bucketDuration, true, now);
      flying, avgFlying, dropTime, droppedRecently := 0, 0.0, 0, false;
    }

    method MaxPass(now: int) returns (result: int)
      requires Valid()
      ensures result == MaxPassOf(Visited(passCounter.State(), true, now))
    {
      var r := passCounter.Reduce(LargerSum, 1.0, now);
      result := Trunc(r);
    }

    method MinRt(now: int) returns (result: real)
      requires Valid()
      ensures result == MinRtOf(Visited(rtCounter.State(), true, now))
    {
      result := rtCounter.Reduce(SmallerMean, DEFAULT_MIN_RT, now);
    }

    method MaxFlight(passAt: int, rtAt: int) returns (r: int)
      requires Valid()
      ensures r == Limit(passAt, rtAt)
      ensures Throughput(passAt, rtAt) < 2000.0 ==> r == 1
      ensures Throughput(passAt, rtAt) >= 2000.0 ==>
        1000.0 * r as real <= Throughput(passAt, rtAt) < 1000.0 * (r + 1) as real
    {
      var pass := MaxPass(passAt);
      var rt := MinRt(rtAt);
      r := Capacity(pass, windows, rt);
      CapacityIs(pass, windows, rt);
    }

    method HighThru(passAt: int, rtAt: int) returns (high: bool)
      requires Valid()
      ensures var x := Throughput(passAt, rtAt);
        high <==> Overfull(flying, x) && Overfull(avgFlying.Floor, x)
    {
      var maxFlight := MaxFlight(passAt, rtAt);
      ghost var passes, rts := Visited(passCounter.State(), true, passAt), Visited(rtCounter.State(), true, rtAt);
      ExceedsExactly(avgFlying, flying, MaxPassOf(passes), windows, MinRtOf(rts));
      high := Exceeds(avgFlying, flying, maxFlight);
    }

    method StillHot(now: int) returns (hot: bool)
      modifies this`droppedRecently
      ensures hot == Hot(old(Memory()), now) && Memory() == Looked(old(Memory()), now)
    {
      if !droppedRecently {
        return false;
      }
      if dropTime == 0 {
        return false;
      }
      hot := now - dropTime < COOL_OFF;
      if !hot {
        droppedRecently := false;
      }
    }

    method ShouldDrop(overloaded: bool, t: Readings) returns (drop: bool)
      requires Valid()
      modifies this`droppedRecently
      ensures var x := old(Throughput(t.pass, t.rt));
        drop <==> (overloaded || Hot(old(Memory()), t.hot)) && Overfull(flying, x) && Overfull(avgFlying.Floor, x)
      ensures !drop ==> Memory() == if overloaded then old(Memory()) else Looked(old(Memory()), t.hot)
      ensures dropTime == old(dropTime)
    {
      var hot := overloaded;
      if !overloaded {
        hot := StillHot(t.hot);
      }
      drop := false;
      if hot {
        drop := HighThru(t.pass, t.rt);
        if drop {
          // the log message asks once more
          var _ := StillHot(t.log);
        }
      }
    }

    /** Lets a request in, or drops it. */
    method Allow(overloaded: bool, t: Readings) returns (dropped: bool)
      requires Valid()
      modifies this
      ensures var x := old(Throughput(t.pass, t.rt));
        var high := Overfull(old(flying), x) && Overfull(old(avgFlying).Floor, x);
        (dropped, Memory()) == AfterAllow(old(Memory()), overloaded, high, t.hot, t.drop)
      ensures var x := old(Throughput(t.pass, t.rt));
        dropped <==> (overloaded || Hot(old(Memory()), t.hot))
                     && Overfull(old(flying), x) && Overfull(old(avgFlying).Floor, x)
      ensures flying == if dropped then old(flying) else old(flying) + 1
      ensures avgFlying == old(avgFlying)
      ensures old(flying) <= 1 || old(avgFlying) < 2.0 ==> !dropped
    {
      dropped := ShouldDrop(overloaded, t);
      if dropped {
        dropTime := t.drop;
        droppedRecently := true;
        return;
      }
      AddFlying(1);
    }

    method AddFlying(delta: int)
      modifies this`flying, this`avgFlying
      ensures flying == old(flying) + delta
      ensures delta >= 0 ==> avgFlying == old(avgFlying)
      ensures delta < 0 ==> 10.0 * avgFlying == 9.0 * old(avgFlying) + flying as real
    {
      flying := flying + delta;
      if delta < 0 {
        avgFlying := avgFlying * FLYING_BETA + flying as real * (1.0 - FLYING_BETA);
      }
    }

    /** A request that was let in failed. */
    method Fail()
      modifies this`flying, this`avgFlying
      ensures flying == old(flying) - 1 && 10.0 * avgFlying == 9.0 * old(avgFlying) + flying as real
    {
      AddFlying(-1);
    }

    /** A request that was let in at `start` succeeded at `end`; each counter reads the clock for itself. */
    method Pass(start: int, end: int, rtNow: int, rtAgain: int, passNow: int, passAgain: int)
      requires Valid()
      modifies this`flying, this`avgFlying
      modifies passCounter, passCounter.win.buckets, rtCounter, rtCounter.win.buckets
      ensures Valid()
      ensures flying == old(flying) - 1 && 10.0 * avgFlying == 9.0 * old(avgFlying) + flying as real
      ensures rtCounter.State() == AddSpec(old(rtCounter.State()), LatencyOf(start, end), rtNow, rtAgain)
      ensures passCounter.State() == AddSpec(old(passCounter.State()), 1.0, passNow, passAgain)
    {
      AddFlying(-1);
      rtCounter.Add(LatencyOf(start, end), rtNow, rtAgain);
      passCounter.Add(1.0, passNow, passAgain);
    }
  }

  /** The response time in milliseconds, rounded up. */
  function LatencyOf(start: int, end: int): (ms: real)
    ensures ms == ms.Floor as real
    ensures 1_000_000.0 * (ms - 1.0) < (end - start) as real <= 1_000_000.0 * ms
  {
    Ceil((end - start) as real / MILLISECOND as real)
  }

  /** The additions of one slot. */
  function InSlot(log: Log, origin: int, interval: int, slot: int): Log
    requires interval > 0
  {
    Within(log, origin, interval, slot - 1, slot)
  }

  lemma AggOfSlot(log: Log, origin: int, interval: int, slot: int)
    requires interval > 0
    ensures Agg(log, origin, interval, slot)
         == Cell(SumOfLog(InSlot(log, origin, interval, slot)), |InSlot(log, origin, interval, slot)|)
  {
    var v := View(log, origin, interval, slot, 1);
    ViewTotals(log, origin, interval, slot, 1);
    assert v[..0] == [];
    assert CountOf(v) == CountOf(v[..0]) + v[0].count;
    assert SumOf(v) == SumOf(v[..0]) + v[0].sum;
  }

  lemma {:induction false} LargestSum(cells: seq<Cell>)
    ensures var m := Fold(LargerSum, 1.0, cells);
      && m >= 1.0
      && (forall i :: 0 <= i < |cells| ==> cells[i].sum <= m)
      && (m == 1.0 || exists i :: 0 <= i < |cells| && cells[i].sum == m)
  {
    if cells != [] {
      var n := |cells| - 1;
      LargestSum(cells[..n]);
      var before := Fold(LargerSum, 1.0, cells[..n]);
      if exists i :: 0 <= i < n && cells[..n][i].sum == before {
        var i :| 0 <= i < n && cells[..n][i].sum == before;
        assert cells[i].sum == before;
      }
    }
  }

  lemma {:induction false} SmallestMean(cells: seq<Cell>)
    ensures var m := Fold(SmallerMean, DEFAULT_MIN_RT, cells);
      && m <= DEFAULT_MIN_RT
      && (forall i :: 0 <= i < |cells| && cells[i].count > 0 ==> m <= MeanOf(cells[i]))
      && (m == DEFAULT_MIN_RT || exists i :: 0 <= i < |cells| && cells[i].count > 0 && MeanOf(cells[i]) == m)
  {
    if cells != [] {
      var n := |cells| - 1;
      SmallestMean(cells[..n]);
      var before := Fold(SmallerMean, DEFAULT_MIN_RT, cells[..n]);
      if exists i :: 0 <= i < n && cells[..n][i].count > 0 && MeanOf(cells[..n][i]) == before {
        var i :| 0 <= i < n && cells[..n][i].count > 0 && MeanOf(cells[..n][i]) == before;
        assert MeanOf(cells[i]) == before;
      }
    }
  }

  function MeanOf(c: Cell): real
    requires c.count > 0
  {
    Round(c.sum / c.count as real)
  }

  /** The slots of the window before the current one. */
  predicate Completed(slot: int, current: int, size: int) {
    current - size < slot < current
  }

  /** What a reduction without the current bucket sees of a completed slot. */
  lemma VisitedCompleted(r: Ring, log: Log, origin: int, now: int, i: int)
    requires Refines(r, log, origin) && LastAt(log, origin) <= now
    requires 0 <= i < |Visited(r, true, now)|
    ensures var slot := SlotOf(origin, r.interval, now) - |r.cells| + 1 + i;
      && Completed(slot, SlotOf(origin, r.interval, now), |r.cells|)
      && Visited(r, true, now)[i]
      == Cell(SumOfLog(InSlot(log, origin, r.interval, slot)), |InSlot(log, origin, r.interval, slot)|)
  {
    VisitedExact(r, log, origin, now);
    var all := View(log, origin, r.interval, SlotOf(origin, r.interval, now), |r.cells|);
    var cells := Visited(r, true, now);
    assert cells[i] == (cells + Empties(Max(Span(r, now), 1) - 1))[i] == all[i];
    AggOfSlot(log, origin, r.interval, SlotOf(origin, r.interval, now) - |r.cells| + 1 + i);
  }

  /** A completed slot is visited, unless nothing was added in it. */
  lemma CompletedVisited(r: Ring, log: Log, origin: int, now: int, slot: int)
    requires Refines(r, log, origin) && LastAt(log, origin) <= now
    requires Completed(slot, SlotOf(origin, r.interval, now), |r.cells|)
    ensures var i := slot - (SlotOf(origin, r.interval, now) - |r.cells| + 1);
      0 <= i && (i < |Visited(r, true, now)| || InSlot(log, origin, r.interval, slot) == [])
  {
    VisitedExact(r, log, origin, now);
    var all := View(log, origin, r.interval, SlotOf(origin, r.interval, now), |r.cells|);
    var cells := Visited(r, true, now);
    var i := slot - (SlotOf(origin, r.interval, now) - |r.cells| + 1);
    if i >= |cells| {
      assert all[i] == all[..|all| - 1][i] == (cells + Empties(Max(Span(r, now), 1) - 1))[i] == EMPTY;
      AggOfSlot(log, origin, r.interval, slot);
    }
  }

  ghost predicate OnlyOnes(log: Log) {
    forall i :: 0 <= i < |log| ==> log[i].v == 1.0
  }

  lemma {:induction false} WithinOnes(log: Log, origin: int, interval: int, lo: int, hi: int)
    requires interval > 0 && OnlyOnes(log)
    ensures OnlyOnes(Within(log, origin, interval, lo, hi))
  {
    if log != [] {
      WithinOnes(log[..|log| - 1], origin, interval, lo, hi);
    }
  }

  lemma {:induction false} SumOfOnes(log: Log)
    requires OnlyOnes(log)
    ensures SumOfLog(log) == |log| as real
  {
    if log != [] {
      SumOfOnes(log[..|log| - 1]);
    }
  }

  /** `m` is the largest number of additions in any completed slot, and at least one. */
  ghost predicate LargestInSlots(log: Log, origin: int, interval: int, now: int, size: int, m: int)
    requires interval > 0
  {
    var current := SlotOf(origin, interval, now);
    && m >= 1
    && (forall s :: Completed(s, current, size) ==> |InSlot(log, origin, interval, s)| <= m)
    && (m == 1 || exists s :: Completed(s, current, size) && |InSlot(log, origin, interval, s)| == m)
  }

  /** maxPass is the largest number of passes that any completed slot saw, and at least one. */
  lemma MaxPassOnLog(r: Ring, log: Log, origin: int, now: int)
    requires Refines(r, log, origin) && OnlyOnes(log) && LastAt(log, origin) <= now
    ensures LargestInSlots(log, origin, r.interval, now, |r.cells|, MaxPassOf(Visited(r, true, now)))
  {
    var cells := Visited(r, true, now);
    var current := SlotOf(origin, r.interval, now);
    var m := Fold(LargerSum, 1.0, cells);
    LargestSum(cells);
    if m != 1.0 {
      var i :| 0 <= i < |cells| && cells[i].sum == m;
      SlotSum(r, log, origin, now, i);
      assert Completed(current - |r.cells| + 1 + i, current, |r.cells|);
    }
    forall s | Completed(s, current, |r.cells|) ensures |InSlot(log, origin, r.interval, s)| <= Trunc(m) {
      CompletedVisited(r, log, origin, now, s);
      var i := s - (current - |r.cells| + 1);
      if i < |cells| {
        SlotSum(r, log, origin, now, i);
      }
    }
  }

  lemma SlotSum(r: Ring, log: Log, origin: int, now: int, i: int)
    requires Refines(r, log, origin) && OnlyOnes(log) && LastAt(log, origin) <= now
    requires 0 <= i < |Visited(r, true, now)|
    ensures var slot := SlotOf(origin, r.interval, now) - |r.cells| + 1 + i;
      && Completed(slot, SlotOf(origin, r.interval, now), |r.cells|)
      && Visited(r, true, now)[i].sum == |InSlot(log, origin, r.interval, slot)| as real
  {
    var slot := SlotOf(origin, r.interval, now) - |r.cells| + 1 + i;
    VisitedCompleted(r, log, origin, now, i);
    WithinOnes(log, origin, r.interval, slot - 1, slot);
    SumOfOnes(InSlot(log, origin, r.interval, slot));
  }

  /** The rounded mean of the values of one slot. */
  function MeanIn(log: Log): real
    requires log != []
  {
    Round(SumOfLog(log) / |log| as real)
  }

  /** `m` is the smallest rounded mean of any completed slot with additions, and at most a second. */
  ghost predicate SmallestMeanInSlots(log: Log, origin: int, interval: int, now: int, size: int, m: real)
    requires interval > 0
  {
    var current := SlotOf(origin, interval, now);
    && m <= DEFAULT_MIN_RT
    && (forall s :: Completed(s, current, size) && InSlot(log, origin, interval, s) != []
          ==> m <= MeanIn(InSlot(log, origin, interval, s)))
    && (m == DEFAULT_MIN_RT
        || exists s :: Completed(s, current, size) && InSlot(log, origin, interval, s) != []
             && MeanIn(InSlot(log, origin, interval, s)) == m)
  }

  /** minRt is the smallest rounded mean that any completed slot with requests saw, and at most a second. */
  lemma MinRtOnLog(r: Ring, log: Log, origin: int, now: int)
    requires Refines(r, log, origin) && LastAt(log, origin) <= now
    ensures SmallestMeanInSlots(log, origin, r.interval, now, |r.cells|, MinRtOf(Visited(r, true, now)))
  {
    var cells := Visited(r, true, now);
    var current := SlotOf(origin, r.interval, now);
    var m := MinRtOf(cells);
    SmallestMean(cells);
    if m != DEFAULT_MIN_RT {
      var i :| 0 <= i < |cells| && cells[i].count > 0 && MeanOf(cells[i]) == m;
      SlotMean(r, log, origin, now, i);
      assert Completed(current - |r.cells| + 1 + i, current, |r.cells|);
    }
    forall s | Completed(s, current, |r.cells|) && InSlot(log, origin, r.interval, s) != []
      ensures m <= MeanIn(InSlot(log, origin, r.interval, s))
    {
      CompletedVisited(r, log, origin, now, s);
      SlotMean(r, log, origin, now, s - (current - |r.cells| + 1));
    }
  }

  lemma SlotMean(r: Ring, log: Log, origin: int, now: int, i: int)
    requires Refines(r, log, origin) && LastAt(log, origin) <= now
    requires 0 <= i < |Visited(r, true, now)|
    ensures var slot := SlotOf(origin, r.interval, now) - |r.cells| + 1 + i;
      var b := Visited(r, true, now)[i];
      && Completed(slot, SlotOf(origin, r.interval, now), |r.cells|)
      && (b.count > 0 <==> InSlot(log, origin, r.interval, slot) != [])
      && (b.count > 0 ==> MeanOf(b) == MeanIn(InSlot(log, origin, r.interval, slot)))
  {
    VisitedCompleted(r, log, origin, now, i);
  }

  /** One request: whether the CPU is overloaded, whether the limit is exceeded, and the clock readings. */
  datatype Ask = Ask(overloaded: bool, high: bool, now: int, dropAt: int)

  function RunAsks(asks: seq<Ask>): (r: (seq<bool>, Drops))
    ensures |r.0| == |asks|
  {
    if asks == [] then ([], Drops(0, false))
    else
      var (drops, d) := RunAsks(asks[..|asks| - 1]);
      var a := asks[|asks| - 1];
      var (dropped, d') := AfterAllow(d, a.overloaded, a.high, a.now, a.dropAt);
      (drops + [dropped], d')
  }

  /** The clock starts above zero and does not go back. */
  ghost predicate InOrder(asks: seq<Ask>) {
    && (forall i :: 0 <= i < |asks| ==> 0 < asks[i].now <= asks[i].dropAt)
    && (forall i, j :: 0 <= i < j < |asks| ==> asks[i].dropAt <= asks[j].now)
  }

  /** Some earlier request was dropped less than the cool-off time ago. */
  ghost predicate DroppedShortlyBefore(asks: seq<Ask>, drops: seq<bool>, now: int) {
    exists j :: 0 <= j < |asks| && j < |drops| && drops[j] && now - asks[j].dropAt < COOL_OFF
  }

  lemma LastDropDecides(asks: seq<Ask>, drops: seq<bool>, now: int)
    requires InOrder(asks) && asks != [] && |drops| == |asks| && drops[|asks| - 1]
    ensures DroppedShortlyBefore(asks, drops, now) <==> now - asks[|asks| - 1].dropAt < COOL_OFF
  {
    if DroppedShortlyBefore(asks, drops, now) {
      var j :| 0 <= j < |asks| && j < |drops| && drops[j] && now - asks[j].dropAt < COOL_OFF;
      assert asks[j].dropAt <= asks[|asks| - 1].dropAt;
    }
  }

  lemma AdmittedChangesNothing(before: seq<Ask>, drops: seq<bool>, a: Ask, now: int)
    requires |drops| == |before|
    ensures DroppedShortlyBefore(before + [a], drops + [false], now) <==> DroppedShortlyBefore(before, drops, now)
  {
    if DroppedShortlyBefore(before, drops, now) {
      var j :| 0 <= j < |before| && j < |drops| && drops[j] && now - before[j].dropAt < COOL_OFF;
      assert (before + [a])[j] == before[j] && (drops + [false])[j];
    }
  }

  lemma RecentEarlier(asks: seq<Ask>, drops: seq<bool>, earlier: int, later: int)
    requires DroppedShortlyBefore(asks, drops, later) && earlier <= later
    ensures DroppedShortlyBefore(asks, drops, earlier)
  {
    var j :| 0 <= j < |asks| && j < |drops| && drops[j] && later - asks[j].dropAt < COOL_OFF;
    assert earlier - asks[j].dropAt < COOL_OFF;
  }

  /** The remembered drop, looked at from a later time, says whether any recent request was dropped. */
  lemma {:induction false} HotMeansRecentDrop(asks: seq<Ask>, now: int)
    requires InOrder(asks) && forall i :: 0 <= i < |asks| ==> asks[i].dropAt <= now
    ensures var (drops, d) := RunAsks(asks);
      Hot(d, now) <==> DroppedShortlyBefore(asks, drops, now)
  {
    if asks != [] {
      var n := |asks| - 1;
      var (before, a) := (asks[..n], asks[n]);
      var (drops0, d0) := RunAsks(before);
      HotMeansRecentDrop(before, now);
      HotMeansRecentDrop(before, a.now);
      if RunAsks(asks).0[n] {
        LastDropDecides(asks, RunAsks(asks).0, now);
      } else {
        assert before + [a] == asks;
        AdmittedChangesNothing(before, drops0, a, now);
        if DroppedShortlyBefore(before, drops0, now) {
          RecentEarlier(before, drops0, a.now, now);
        }
      }
    }
  }

  /**
   A request is dropped exactly when the limit is exceeded and either the CPU is overloaded at that
   moment or an earlier request was dropped less than the cool-off time before.
   */
  lemma DropExactly(asks: seq<Ask>, i: int)
    requires InOrder(asks) && 0 <= i < |asks|
    ensures var drops := RunAsks(asks).0;
      drops[i] <==> asks[i].high && (asks[i].overloaded || DroppedShortlyBefore(asks[..i], drops[..i], asks[i].now))
  {
    var upTo := asks[..i + 1];
    RunPrefix(asks, i);
    RunPrefix(asks, i + 1);
    assert upTo[..|upTo| - 1] == asks[..i];
    var (drops0, d0) := RunAsks(asks[..i]);
    assert RunAsks(asks).0[i] == RunAsks(upTo).0[i] == ((asks[i].overloaded || Hot(d0, asks[i].now)) && asks[i].high);
    HotMeansRecentDrop(asks[..i], asks[i].now);
  }

  lemma {:induction false} RunPrefix(asks: seq<Ask>, n: int)
    requires 0 <= n <= |asks|
    ensures RunAsks(asks[..n]).0 == RunAsks(asks).0[..n]
  {
    if n == |asks| {
      assert asks[..n] == asks;
    } else {
      RunPrefix(asks[..|asks| - 1], n);
      assert asks[..|asks| - 1][..n] == asks[..n];
    }
  }
}
