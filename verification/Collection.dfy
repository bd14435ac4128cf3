/** The rolling window: its behaviour as a function of its state, and the theorems about it. */
module WindowSpec {
  import opened GoArith
  import opened WindowLog

  /** A rolling window seen without its cursor: cells oldest first, the last one being written to. */
  datatype Ring = Ring(interval: int, lastTime: int, cells: seq<Cell>) {
    ghost predicate Valid() {
      interval > 0 && |cells| > 0
    }
  }

  /** Whole intervals since the last bucket was opened, or the window size when all have expired. */
  function Span(r: Ring, now: int): (s: int)
    requires r.Valid()
    ensures 0 <= s <= |r.cells|
  {
    var offset := Quo(now - r.lastTime, r.interval);
    if 0 <= offset < |r.cells| then offset else |r.cells|
  }

  /**
   An addition. The clock is read as `now` to count the expired buckets and, only when there are
   some, once more as `again` to date the bucket that is opened.
   */
  function AddSpec(r: Ring, v: real, now: int, again: int): (r': Ring)
    requires r.Valid()
    ensures r'.Valid()
  {
    var s := Span(r, now);
    if s == 0 then r.(cells := PlusLast(r.cells, v))
    else Ring(r.interval, again - Rem(again - r.lastTime, r.interval), PlusLast(Advance(r.cells, s), v))
  }

  /** The cells that a reduction visits, in order. */
  function Visited(r: Ring, ignoreCurrent: bool, now: int): seq<Cell>
    requires r.Valid()
  {
    var s := Span(r, now);
    if s == 0 && ignoreCurrent then r.cells[..|r.cells| - 1] else r.cells[s..]
  }

  function Fold<A>(fn: (A, Cell) -> A, acc: A, cells: seq<Cell>): A {
    if cells == [] then acc else fn(Fold(fn, acc, cells[..|cells| - 1]), cells[|cells| - 1])
  }

  function NewRing(size: int, interval: int, now: int): (r: Ring)
    requires size > 0 && interval > 0
    ensures r.Valid()
  {
    Ring(interval, now, Empties(size))
  }

  /** The ring holds exactly what the log says about the slots it covers. */
  ghost predicate Refines(r: Ring, log: Log, origin: int) {
    && r.Valid()
    && Chronological(log, origin)
    && var last := SlotOf(origin, r.interval, LastAt(log, origin));
       && r.lastTime == origin + r.interval * last
       && r.cells == View(log, origin, r.interval, last, |r.cells|)
  }

  lemma SpanIsSlots(r: Ring, log: Log, origin: int, now: int)
    requires Refines(r, log, origin) && LastAt(log, origin) <= now
    ensures var slots := SlotOf(origin, r.interval, now) - SlotOf(origin, r.interval, LastAt(log, origin));
      0 <= slots && Span(r, now) == Min(slots, |r.cells|)
  {
    var last := SlotOf(origin, r.interval, LastAt(log, origin));
    QuotientMonotone(LastAt(log, origin) - origin, now - origin, r.interval);
    QuotientShift(now - origin, r.interval, last);
    assert now - r.lastTime == now - origin - r.interval * last;
    assert now >= r.lastTime;
  }

  /** Opening a bucket dates it with the start of the slot of the second reading. */
  lemma DateOfOpenedBucket(r: Ring, log: Log, origin: int, again: int)
    requires Refines(r, log, origin) && LastAt(log, origin) <= again
    ensures again - Rem(again - r.lastTime, r.interval) == origin + r.interval * SlotOf(origin, r.interval, again)
  {
    var last := SlotOf(origin, r.interval, LastAt(log, origin));
    QuotientShift(again - origin, r.interval, last);
    var q := SlotOf(origin, r.interval, again);
    assert again - r.lastTime == again - origin - r.interval * last;
    assert again >= r.lastTime;
    assert r.interval * (q - last) == r.interval * q - r.interval * last;
  }

  /** The reading that decides the slot of an addition. */
  function LoggedAt(r: Ring, now: int, again: int): int
    requires r.Valid()
  {
    if Span(r, now) == 0 then now else again
  }

  /** Advancing by different spans gives the same cells only if everything kept is empty. */
  lemma {:induction false} AdvanceTwoWays(cells: seq<Cell>, s1: nat, s2: nat)
    requires s1 < s2 <= |cells|
    ensures Advance(cells, s1) == Advance(cells, s2) <==> forall j :: s1 <= j < |cells| ==> cells[j] == EMPTY
  {
    if Advance(cells, s1) == Advance(cells, s2) {
      var k := |cells|;
      while k > s1
        invariant s1 <= k <= |cells|
        invariant forall j :: k <= j < |cells| ==> cells[j] == EMPTY
      {
        k := k - 1;
        assert cells[k] == Advance(cells, s1)[k - s1] == Advance(cells, s2)[k - s1];
      }
    }
  }

  /**
   When an addition keeps the ring in step with the log: if no bucket expired, or both clock
   readings fall into one slot, or every bucket that is kept is empty, and in no other case.
   */
  lemma AddExact(r: Ring, log: Log, origin: int, v: real, now: int, again: int)
    requires Refines(r, log, origin) && LastAt(log, origin) <= now <= again
    ensures Refines(AddSpec(r, v, now, again), log + [Entry(LoggedAt(r, now, again), v)], origin)
       <==> (|| Span(r, now) == 0
             || SlotOf(origin, r.interval, now) == SlotOf(origin, r.interval, again)
             || forall j :: Span(r, now) <= j < |r.cells| ==> r.cells[j] == EMPTY)
  {
    var at := LoggedAt(r, now, again);
    var e := Entry(at, v);
    var last := SlotOf(origin, r.interval, LastAt(log, origin));
    var k := SlotOf(origin, r.interval, at);
    SpanIsSlots(r, log, origin, now);
    SpanIsSlots(r, log, origin, at);
    DateOfOpenedBucket(r, log, origin, again);
    QuotientMonotone(now - origin, again - origin, r.interval);
    ViewAppend(log, e, origin, r.interval, k, |r.cells|);
    ViewLater(log, origin, r.interval, last, k, |r.cells|);
    assert Chronological(log + [e], origin);
    assert AddSpec(r, v, now, again).lastTime == origin + r.interval * k;
    SameCells(r.cells, Span(r, now), Span(r, at), v);
    assert Span(r, now) == 0 ==> r.cells == Advance(r.cells, 0);
  }

  /** Adding after two different spans. */
  lemma SameCells(cells: seq<Cell>, s1: nat, s2: nat, v: real)
    requires |cells| > 0 && s1 <= s2 <= |cells|
    ensures PlusLast(Advance(cells, s1), v) == PlusLast(Advance(cells, s2), v)
       <==> s1 == s2 || forall j :: s1 <= j < |cells| ==> cells[j] == EMPTY
  {
    PlusLastInjective(Advance(cells, s1), Advance(cells, s2), v);
    if s1 < s2 {
      AdvanceTwoWays(cells, s1, s2);
    }
  }

  lemma PlusLastInjective(a: seq<Cell>, b: seq<Cell>, v: real)
    requires |a| == |b| > 0
    ensures PlusLast(a, v) == PlusLast(b, v) <==> a == b
  {
    var pa, pb := PlusLast(a, v), PlusLast(b, v);
    if pa == pb {
      forall i | 0 <= i < |a| ensures a[i] == b[i] {
        assert pa[i] == pb[i];
      }
    }
  }

  /** A reduction visits, oldest first, exactly the slots of the window that can hold anything. */
  lemma VisitedExact(r: Ring, log: Log, origin: int, now: int)
    requires Refines(r, log, origin) && LastAt(log, origin) <= now
    ensures var all := View(log, origin, r.interval, SlotOf(origin, r.interval, now), |r.cells|);
      && Visited(r, false, now) + Empties(Span(r, now)) == all
      && Visited(r, true, now) + Empties(Max(Span(r, now), 1) - 1) == all[..|all| - 1]
  {
    SpanIsSlots(r, log, origin, now);
    var last := SlotOf(origin, r.interval, LastAt(log, origin));
    ViewLater(log, origin, r.interval, last, SlotOf(origin, r.interval, now), |r.cells|);
  }

  /** One call of Add: the value and its two clock readings. */
  datatype Tick = Tick(v: real, now: int, again: int)

  function RunAdds(r: Ring, ticks: seq<Tick>): (r': Ring)
    requires r.Valid()
    ensures r'.Valid() && r'.interval == r.interval && |r'.cells| == |r.cells|
  {
    if ticks == [] then r
    else
      var t := ticks[|ticks| - 1];
      AddSpec(RunAdds(r, ticks[..|ticks| - 1]), t.v, t.now, t.again)
  }

  function LogOf(ticks: seq<Tick>): Log {
    seq(|ticks|, i requires 0 <= i < |ticks| => Entry(ticks[i].again, ticks[i].v))
  }

  /** Clock readings in order, with the two readings of one call in one slot. */
  ghost predicate Steady(ticks: seq<Tick>, origin: int, interval: int)
    requires interval > 0
  {
    && Chronological(LogOf(ticks), origin)
    && (forall i :: 0 <= i < |ticks| ==> ticks[i].now <= ticks[i].again)
    && (forall i :: 0 <= i < |ticks| ==> LastAt(LogOf(ticks[..i]), origin) <= ticks[i].now)
    && forall i :: 0 <= i < |ticks| ==>
      SlotOf(origin, interval, ticks[i].now) == SlotOf(origin, interval, ticks[i].again)
  }

  /** Every steady run of additions leaves a ring that holds exactly its log. */
  lemma {:induction false} RunRefinesLog(size: int, interval: int, origin: int, ticks: seq<Tick>)
    requires size > 0 && interval > 0 && Steady(ticks, origin, interval)
    ensures Refines(RunAdds(NewRing(size, interval, origin), ticks), LogOf(ticks), origin)
  {
    var r0 := NewRing(size, interval, origin);
    if ticks == [] {
      assert View(LogOf(ticks), origin, interval, 0, size) == Empties(size);
    } else {
      var n := |ticks| - 1;
      var t := ticks[n];
      SteadyPrefix(ticks, origin, interval);
      RunRefinesLog(size, interval, origin, ticks[..n]);
      var r, log := RunAdds(r0, ticks[..n]), LogOf(ticks[..n]);
      AddExact(r, log, origin, t.v, t.now, t.again);
      assert LogOf(ticks) == log + [Entry(t.again, t.v)];
      SameSlotSameView(r, log, origin, t);
    }
  }

  lemma SteadyPrefix(ticks: seq<Tick>, origin: int, interval: int)
    requires interval > 0 && ticks != [] && Steady(ticks, origin, interval)
    ensures Steady(ticks[..|ticks| - 1], origin, interval)
  {
    var n := |ticks| - 1;
    var before := ticks[..n];
    forall i | 0 <= i < n
      ensures before[i] == ticks[i] && before[..i] == ticks[..i] && LogOf(before)[i] == LogOf(ticks)[i]
    {
    }
  }

  /** Within one slot it does not matter which of the two readings is logged. */
  lemma SameSlotSameView(r: Ring, log: Log, origin: int, t: Tick)
    requires Refines(r, log, origin) && LastAt(log, origin) <= t.now <= t.again
    requires SlotOf(origin, r.interval, t.now) == SlotOf(origin, r.interval, t.again)
    ensures Refines(AddSpec(r, t.v, t.now, t.again), log + [Entry(t.again, t.v)], origin)
  {
    AddExact(r, log, origin, t.v, t.now, t.again);
    var k := SlotOf(origin, r.interval, t.again);
    ViewAppend(log, Entry(t.again, t.v), origin, r.interval, k, |r.cells|);
    ViewAppend(log, Entry(LoggedAt(r, t.now, t.again), t.v), origin, r.interval, k, |r.cells|);
  }

  /**
   The window is a filter over the log: after any steady run, a reduction at a later time visits the
   last `size` slots (trailing empty slots left out), and with `ignoreCurrent` all of them but the
   slot of the call itself.
   */
  lemma WindowIsLogFilter(size: int, interval: int, origin: int, ticks: seq<Tick>, now: int)
    requires size > 0 && interval > 0 && Steady(ticks, origin, interval) && LastAt(LogOf(ticks), origin) <= now
    ensures var r := RunAdds(NewRing(size, interval, origin), ticks);
      var all := View(LogOf(ticks), origin, interval, SlotOf(origin, interval, now), size);
      && Visited(r, false, now) + Empties(Span(r, now)) == all
      && Visited(r, true, now) + Empties(Max(Span(r, now), 1) - 1) == all[..size - 1]
  {
    RunRefinesLog(size, interval, origin, ticks);
    VisitedExact(RunAdds(NewRing(size, interval, origin), ticks), LogOf(ticks), origin, now);
  }

  /** A first addition at the very start. */
  lemma FirstAddition(interval: int, origin: int, v: real)
    requires interval > 0
    ensures AddSpec(NewRing(3, interval, origin), v, origin, origin)
         == Ring(interval, origin, [EMPTY, EMPTY, Plus(EMPTY, v)])
  {
    var r := NewRing(3, interval, origin);
    QuotientIs(0, interval, 0);
    assert Span(r, origin) == 0;
    assert PlusLast(r.cells, v) == [EMPTY, EMPTY, Plus(EMPTY, v)];
  }

  /** A second one, which counts the expired buckets just before a slot boundary and dates its own at it. */
  lemma SecondAddition(interval: int, origin: int, c: Cell, v: real)
    requires interval > 0
    ensures AddSpec(Ring(interval, origin, [EMPTY, EMPTY, c]), v, origin + 2 * interval - 1, origin + 2 * interval)
         == Ring(interval, origin + 2 * interval, [EMPTY, c, Plus(EMPTY, v)])
  {
    var r := Ring(interval, origin, [EMPTY, EMPTY, c]);
    QuotientIs(2 * interval - 1, interval, 1);
    QuotientIs(2 * interval, interval, 2);
    assert Span(r, origin + 2 * interval - 1) == 1;
    assert r.cells[1..] == [EMPTY, c] && Empties(1) == [EMPTY];
    assert Advance(r.cells, 1) == [EMPTY, c, EMPTY];
    assert PlusLast([EMPTY, c, EMPTY], v) == [EMPTY, c, Plus(EMPTY, v)];
  }

  /** The log of the two. */
  function TwoEntries(interval: int, origin: int, v: real, w: real): Log {
    [Entry(origin, v), Entry(origin + 2 * interval, w)]
  }

  /** Where the two belong. */
  lemma EntriesInSlots(interval: int, origin: int, v: real, w: real, slot: int)
    requires interval > 0
    ensures Agg(TwoEntries(interval, origin, v, w), origin, interval, slot)
         == if slot == 0 then Plus(EMPTY, v) else if slot == 2 then Plus(EMPTY, w) else EMPTY
  {
    QuotientIs(0, interval, 0);
    QuotientIs(2 * interval, interval, 2);
    var one, next := [Entry(origin, v)], Entry(origin + 2 * interval, w);
    assert [] + one == one && one + [next] == TwoEntries(interval, origin, v, w);
    AggAppend([], one[0], origin, interval, slot);
    AggAppend(one, next, origin, interval, slot);
  }

  lemma ViewOfTwo(interval: int, origin: int, v: real, w: real, slot: int, size: nat)
    requires interval > 0 && slot == 2 && size == 3
    ensures View(TwoEntries(interval, origin, v, w), origin, interval, slot, size)
         == [Plus(EMPTY, v), EMPTY, Plus(EMPTY, w)]
  {
    var all := View(TwoEntries(interval, origin, v, w), origin, interval, slot, size);
    EntriesInSlots(interval, origin, v, w, 0);
    EntriesInSlots(interval, origin, v, w, 1);
    EntriesInSlots(interval, origin, v, w, 2);
    assert all[0] == Plus(EMPTY, v) && all[1] == EMPTY && all[2] == Plus(EMPTY, w);
  }

  /** The ring after the two, when the second reads the clock on either side of a slot boundary. */
  function Straddled(interval: int, origin: int, v: real, w: real): (r: Ring)
    requires interval > 0
    ensures r.Valid()
  {
    var late := origin + 2 * interval;
    AddSpec(AddSpec(NewRing(3, interval, origin), v, origin, origin), w, late - 1, late)
  }

  lemma StraddledIs(interval: int, origin: int, v: real, w: real)
    requires interval > 0
    ensures Straddled(interval, origin, v, w)
         == Ring(interval, origin + 2 * interval, [EMPTY, Plus(EMPTY, v), Plus(EMPTY, w)])
  {
    FirstAddition(interval, origin, v);
    SecondAddition(interval, origin, Plus(EMPTY, v), w);
  }

  /** So the first of the two is seen in the wrong slot. */
  lemma StraddlingReadsMisdate(interval: int, origin: int, v: real, w: real, slot: int, size: nat)
    requires interval > 0 && slot == 2 && size == 3
    ensures Visited(Straddled(interval, origin, v, w), false, origin + slot * interval)
         == [EMPTY, Plus(EMPTY, v), Plus(EMPTY, w)]
    ensures View(TwoEntries(interval, origin, v, w), origin, interval, slot, size)
         == [Plus(EMPTY, v), EMPTY, Plus(EMPTY, w)]
  {
    StraddledIs(interval, origin, v, w);
    JustOpened(Straddled(interval, origin, v, w));
    ViewOfTwo(interval, origin, v, w, slot, size);
  }

  lemma JustOpened(r: Ring)
    requires r.Valid()
    ensures Visited(r, false, r.lastTime) == r.cells
  {
    QuotientIs(0, r.interval, 0);
  }
}

/** The ring of buckets with its cursor, updated in place. */
module Collection {
  import opened GoArith
  import opened WindowLog
  import opened WindowSpec

  class Window {
    const size: int
    const buckets: array<Cell>

    ghost predicate Valid() {
      size > 0 && buckets.Length == size
    }

    constructor (size: int)
      requires size > 0
      ensures Valid() && this.size == size && fresh(buckets)
      ensures buckets[..] == Empties(size)
    {
      this.size := size;
      buckets := new Cell[size](_ => EMPTY);
    }

    /** The position of an index that has gone at most once past the end of the ring. */
    method Position(i: int) returns (p: int)
      requires Valid() && 0 <= i < 2 * size
      ensures p == Wrap(i, size) && 0 <= p < size
    {
      ModOnce(i, size);
      p := i % size;
    }

    method Add(offset: int, v: real)
      requires Valid() && 0 <= offset < size
      modifies buckets
      ensures buckets[..] == old(buckets[..])[offset := Plus(old(buckets[offset]), v)]
    {
      var p := Position(offset);
      buckets[p] := Plus(buckets[p], v);
    }

    method ResetBucket(offset: int)
      requires Valid() && 0 <= offset < 2 * size
      modifies buckets
      ensures buckets[..] == old(buckets[..])[Wrap(offset, size) := EMPTY]
    {
      var p := Position(offset);
      buckets[p] := EMPTY;
    }

    /** Passes `count` buckets from `start` on, round the ring, to the accumulating function. */
    method Reduce<A>(start: int, count: int, fn: (A, Cell) -> A, init: A) returns (acc: A)
      requires Valid() && 0 <= start < size && 0 <= count <= size
      ensures acc == Fold(fn, init, Rotated(buckets[..], start)[..count])
    {
      acc := init;
      for i := 0 to count
        invariant acc == Fold(fn, init, Rotated(buckets[..], start)[..i])
      {
        var p := Position(start + i);
        acc := fn(acc, buckets[p]);
        assert Rotated(buckets[..], start)[..i + 1][..i] == Rotated(buckets[..], start)[..i];
      }
    }
  }

  /** The elements of a ring from index `start` round to just before it. */
  function Rotated(raw: seq<Cell>, start: int): (r: seq<Cell>)
    requires 0 <= start <= |raw|
    ensures |r| == |raw|
  {
    raw[start..] + raw[..start]
  }

  /** An index into a ring of `n` that has gone at most once past the end. */
  function Wrap(i: int, n: int): int {
    if i < n then i else i - n
  }

  lemma RotatedUpdate(raw: seq<Cell>, start: int, i: int, c: Cell)
    requires 0 <= start <= |raw| && 0 <= i < |raw|
    ensures Rotated(raw[Wrap(start + i, |raw|) := c], start) == Rotated(raw, start)[i := c]
  {
  }

  /** The ring after the `i` buckets that follow the cursor have been cleared. */
  function Cleared(raw: seq<Cell>, offset: int, i: nat): (r: seq<Cell>)
    requires 0 <= offset < |raw| && i <= |raw|
    ensures |r| == |raw|
  {
    if i == 0 then raw else Cleared(raw, offset, i - 1)[Wrap(offset + i, |raw|) := EMPTY]
  }

  /** They are the oldest cells. */
  lemma {:induction false} ClearedAreOldest(raw: seq<Cell>, offset: int, i: nat)
    requires 0 <= offset < |raw| && i <= |raw|
    ensures Rotated(Cleared(raw, offset, i), offset + 1) == Empties(i) + Rotated(raw, offset + 1)[i..]
  {
    if i > 0 {
      ClearedAreOldest(raw, offset, i - 1);
      RotatedUpdate(Cleared(raw, offset, i - 1), offset + 1, i - 1, EMPTY);
    }
  }

  lemma RotatedFurther(raw: seq<Cell>, start: int, s: int)
    requires 0 < start <= |raw| && 0 <= s <= |raw|
    ensures Rotated(raw, Wrap(start - 1 + s, |raw|) + 1) == Rotated(raw, start)[s..] + Rotated(raw, start)[..s]
  {
    var a, b := Rotated(raw, Wrap(start - 1 + s, |raw|) + 1), Rotated(raw, start);
    forall i | 0 <= i < |raw| ensures a[i] == (b[s..] + b[..s])[i] {
    }
  }

  lemma CursorPastCleared(raw: seq<Cell>, offset: int, span: nat)
    requires 0 <= offset < |raw| && span <= |raw|
    ensures Rotated(Cleared(raw, offset, span), Wrap(offset + span, |raw|) + 1)
         == Advance(Rotated(raw, offset + 1), span)
  {
    var cells := Rotated(raw, offset + 1);
    ClearedAreOldest(raw, offset, span);
    RotatedFurther(Cleared(raw, offset, span), offset + 1, span);
    assert (Empties(span) + cells[span..])[span..] == cells[span..];
    assert (Empties(span) + cells[span..])[..span] == Empties(span);
  }

  /** The buckets that are not expired follow the expired ones in array order. */
  lemma VisitedInPlace(r: Ring, raw: seq<Cell>, offset: int, ignoreCurrent: bool, now: int, start: int, diff: int)
    requires r.Valid() && 0 <= offset < |raw| && r.cells == Rotated(raw, offset + 1)
    requires diff == if Span(r, now) == 0 && ignoreCurrent then |raw| - 1 else |raw| - Span(r, now)
    requires 0 <= start < |raw| && (diff > 0 ==> start == Wrap(offset + Span(r, now) + 1, |raw|))
    ensures Rotated(raw, start)[..diff] == Visited(r, ignoreCurrent, now)
  {
    var s := Span(r, now);
    assert Visited(r, ignoreCurrent, now) == r.cells[s..s + diff];
    if diff > 0 {
      RotatedPart(raw, offset, s, diff);
    }
  }

  lemma RotatedPart(raw: seq<Cell>, offset: int, s: int, diff: int)
    requires 0 <= offset < |raw| && 0 <= s && 0 < diff && s + diff <= |raw|
    ensures Rotated(raw, offset + 1)[s..s + diff] == Rotated(raw, Wrap(offset + s + 1, |raw|))[..diff]
  {
    var a, b := Rotated(raw, offset + 1), Rotated(raw, Wrap(offset + s + 1, |raw|));
    forall i | 0 <= i < diff ensures a[s + i] == b[i] {
    }
  }

  class RollingWindow {
    const win: Window
    const interval: int
    const ignoreCurrent: bool
    var offset: int
    var lastTime: int

    ghost predicate Valid()
      reads this
    {
      win.Valid() && interval > 0 && 0 <= offset < win.size
    }

    /** The buckets oldest first: the one after the cursor comes first, the cursor's own comes last. */
    ghost function State(): (r: Ring)
      requires Valid()
      reads this, win.buckets
      ensures r.Valid() && |r.cells| == win.size
    {
      Ring(interval, lastTime, Rotated(win.buckets[..], offset + 1))
    }

    constructor (size: int, interval: int, ignoreCurrent: bool, now: int)
      requires size > 0 && interval > 0
      ensures Valid() && State() == NewRing(size, interval, now)
      ensures this.ignoreCurrent == ignoreCurrent && win.size == size && this.interval == interval
      ensures fresh(win.buckets)
    {
      var w := new Window(size);
      this.win := w;
      this.interval := interval;
      this.ignoreCurrent := ignoreCurrent;
      this.offset := 0;
      this.lastTime := now;
    }

    method CurrentSpan(now: int) returns (s: int)
      requires Valid()
      ensures s == Span(State(), now)
    {
      var offset := Quo(now - lastTime, interval);
      if 0 <= offset < win.size {
        return offset;
      }
      return win.size;
    }

    method Add(v: real, now: int, again: int)
      requires Valid()
      modifies this, win.buckets
      ensures Valid() && State() == AddSpec(old(State()), v, now, again)
    {
      UpdateOffset(now, again);
      ghost var raw := win.buckets[..];
      win.Add(offset, v);
      RotatedUpdate(raw, offset + 1, win.size - 1, Plus(raw[offset], v));
      assert Rotated(raw, offset + 1)[win.size - 1] == raw[offset];
      assert State().cells == PlusLast(Rotated(raw, offset + 1), v);
    }

    /** The buckets that have not expired: the first one, and how many. */
    method Live(now: int) returns (start: int, diff: int)
      requires Valid()
      ensures 0 <= start < win.size && 0 <= diff <= win.size
      ensures Rotated(win.buckets[..], start)[..diff] == Visited(State(), ignoreCurrent, now)
    {
      ghost var r, raw := State(), win.buckets[..];
      var span := CurrentSpan(now);
      diff := if span == 0 && ignoreCurrent then win.size - 1 else win.size - span;
      start := 0;
      if diff > 0 {
        start := win.Position(offset + span + 1);
      }
      VisitedInPlace(r, raw, offset, ignoreCurrent, now, start, diff);
    }

    method Reduce<A>(fn: (A, Cell) -> A, init: A, now: int) returns (acc: A)
      requires Valid()
      ensures acc == Fold(fn, init, Visited(State(), ignoreCurrent, now))
    {
      var start, diff := Live(now);
      acc := win.Reduce(start, diff, fn, init);
    }

    /** Clears the `span` oldest buckets and moves the cursor past them. */
    method Slide(span: int)
      requires Valid() && 0 <= span <= win.size
      modifies this`offset, win.buckets
      ensures Valid()
      ensures Rotated(win.buckets[..], offset + 1) == Advance(Rotated(old(win.buckets[..]), old(offset) + 1), span)
    {
      ghost var raw := win.buckets[..];
      for i := 0 to span
        invariant offset == old(offset)
        invariant win.buckets[..] == Cleared(raw, offset, i)
      {
        win.ResetBucket(offset + i + 1);
      }
      CursorPastCleared(raw, offset, span);
      offset := win.Position(offset + span);
    }

    /** Makes room for the current interval, and dates the bucket that is opened. */
    method UpdateOffset(now: int, again: int)
      requires Valid()
      modifies this, win.buckets
      ensures Valid()
      ensures var s := Span(old(State()), now);
        State() == if s == 0 then old(State())
                   else Ring(interval, again - Rem(again - old(lastTime), interval), Advance(old(State()).cells, s))
    {
      var span := CurrentSpan(now);
      if span <= 0 {
        return;
      }
      Slide(span);
      lastTime := again - Rem(again - lastTime, interval);
    }
  }
}
