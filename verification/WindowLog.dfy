/**
 What a rolling window is meant to compute: sums over a log of timestamped additions, cut into
 interval slots counted from the creation time of the window.
 */
module WindowLog {
  import opened GoArith

  /** The value of a bucket: the sum and the number of its additions. */
  datatype Cell = Cell(sum: real, count: int)

  const EMPTY: Cell := Cell(0.0, 0)

  function Plus(c: Cell, v: real): Cell {
    Cell(c.sum + v, c.count + 1)
  }

  function Empties(n: nat): (s: seq<Cell>)
    ensures |s| == n && forall i :: 0 <= i < n ==> s[i] == EMPTY
  {
    seq(n, _ => EMPTY)
  }

  /** One addition, with the clock reading that decided its slot. */
  datatype Entry = Entry(at: int, v: real)

  type Log = seq<Entry>

  /** The number of whole intervals since the creation of the window. */
  function SlotOf(origin: int, interval: int, t: int): int
    requires interval > 0
  {
    (t - origin) / interval
  }

  /** Clock readings never go back, and never precede the creation of the window. */
  ghost predicate Chronological(log: Log, origin: int) {
    && (forall i :: 0 <= i < |log| ==> origin <= log[i].at)
    && (forall i, j :: 0 <= i < j < |log| ==> log[i].at <= log[j].at)
  }

  function LastAt(log: Log, origin: int): int {
    if log == [] then origin else log[|log| - 1].at
  }

  /** Everything the log holds for one slot. */
  function Agg(log: Log, origin: int, interval: int, slot: int): Cell
    requires interval > 0
  {
    if log == [] then EMPTY
    else
      var rest := Agg(log[..|log| - 1], origin, interval, slot);
      var e := log[|log| - 1];
      if SlotOf(origin, interval, e.at) == slot then Plus(rest, e.v) else rest
  }

  /** The `size` slots that end with `slot`, oldest first. */
  function View(log: Log, origin: int, interval: int, slot: int, size: nat): (s: seq<Cell>)
    requires interval > 0
    ensures |s| == size
    ensures forall i :: 0 <= i < size ==> s[i] == Agg(log, origin, interval, slot - size + 1 + i)
  {
    seq(size, i => Agg(log, origin, interval, slot - size + 1 + i))
  }

  /** The additions of slots above `lo` and up to `hi`. */
  function Within(log: Log, origin: int, interval: int, lo: int, hi: int): Log
    requires interval > 0
  {
    if log == [] then []
    else
      var rest := Within(log[..|log| - 1], origin, interval, lo, hi);
      var e := log[|log| - 1];
      if lo < SlotOf(origin, interval, e.at) <= hi then rest + [e] else rest
  }

  /** Slots nothing was logged for are empty. */
  lemma {:induction false} AggBeyond(log: Log, origin: int, interval: int, slot: int)
    requires interval > 0
    requires forall i :: 0 <= i < |log| ==> SlotOf(origin, interval, log[i].at) != slot
    ensures Agg(log, origin, interval, slot) == EMPTY
  {
    if log != [] {
      var n := |log| - 1;
      assert forall i :: 0 <= i < n ==> log[..n][i] == log[i];
      AggBeyond(log[..n], origin, interval, slot);
    }
  }

  /** No slot later than that of the last addition holds anything. */
  lemma SlotsAfterLastEmpty(log: Log, origin: int, interval: int, slot: int)
    requires interval > 0 && Chronological(log, origin)
    requires slot > SlotOf(origin, interval, LastAt(log, origin))
    ensures Agg(log, origin, interval, slot) == EMPTY
  {
    forall i | 0 <= i < |log| ensures SlotOf(origin, interval, log[i].at) != slot {
      QuotientMonotone(log[i].at - origin, LastAt(log, origin) - origin, interval);
    }
    AggBeyond(log, origin, interval, slot);
  }

  lemma AggAppend(log: Log, e: Entry, origin: int, interval: int, slot: int)
    requires interval > 0
    ensures Agg(log + [e], origin, interval, slot)
         == if SlotOf(origin, interval, e.at) == slot then Plus(Agg(log, origin, interval, slot), e.v)
            else Agg(log, origin, interval, slot)
  {
    assert (log + [e])[..|log|] == log;
  }

  lemma ViewAppend(log: Log, e: Entry, origin: int, interval: int, k: int, size: nat)
    requires interval > 0 && size > 0 && k == SlotOf(origin, interval, e.at)
    ensures View(log + [e], origin, interval, k, size) == PlusLast(View(log, origin, interval, k, size), e.v)
  {
    forall i | 0 <= i < size
      ensures View(log + [e], origin, interval, k, size)[i] == PlusLast(View(log, origin, interval, k, size), e.v)[i]
    {
      AggAppend(log, e, origin, interval, k - size + 1 + i);
    }
  }

  function PlusLast(cells: seq<Cell>, v: real): (r: seq<Cell>)
    requires |cells| > 0
    ensures |r| == |cells|
  {
    cells[|cells| - 1 := Plus(cells[|cells| - 1], v)]
  }

  /** Moving on `s` slots forgets the `s` oldest cells and opens `s` empty ones. */
  function Advance(cells: seq<Cell>, s: nat): (r: seq<Cell>)
    requires s <= |cells|
    ensures |r| == |cells|
  {
    cells[s..] + Empties(s)
  }

  /** Looking at the same log from a later slot is advancing. */
  lemma ViewLater(log: Log, origin: int, interval: int, last: int, later: int, size: nat)
    requires interval > 0 && Chronological(log, origin)
    requires last == SlotOf(origin, interval, LastAt(log, origin)) <= later
    ensures View(log, origin, interval, later, size)
         == Advance(View(log, origin, interval, last, size), Min(later - last, size))
  {
    var s := Min(later - last, size);
    forall i | size - s <= i < size
      ensures View(log, origin, interval, later, size)[i] == EMPTY
    {
      SlotsAfterLastEmpty(log, origin, interval, later - size + 1 + i);
    }
  }

  function CountOf(cells: seq<Cell>): int {
    if cells == [] then 0 else CountOf(cells[..|cells| - 1]) + cells[|cells| - 1].count
  }

  function SumOf(cells: seq<Cell>): real {
    if cells == [] then 0.0 else SumOf(cells[..|cells| - 1]) + cells[|cells| - 1].sum
  }

  function SumOfLog(log: Log): real {
    if log == [] then 0.0 else SumOfLog(log[..|log| - 1]) + log[|log| - 1].v
  }

  lemma {:induction false} TotalsAppend(a: seq<Cell>, b: seq<Cell>)
    ensures CountOf(a + b) == CountOf(a) + CountOf(b)
    ensures SumOf(a + b) == SumOf(a) + SumOf(b)
  {
    if b == [] {
      assert a + b == a;
    } else {
      assert (a + b)[..|a + b| - 1] == a + b[..|b| - 1];
      TotalsAppend(a, b[..|b| - 1]);
    }
  }

  lemma {:induction false} TotalsEmpties(n: nat)
    ensures CountOf(Empties(n)) == 0 && SumOf(Empties(n)) == 0.0
  {
    if n > 0 {
      assert Empties(n)[..n - 1] == Empties(n - 1);
      TotalsEmpties(n - 1);
    }
  }

  /** Adding to one cell adds to the totals. */
  lemma TotalsUpdate(cells: seq<Cell>, i: nat, v: real)
    requires i < |cells|
    ensures CountOf(cells[i := Plus(cells[i], v)]) == CountOf(cells) + 1
    ensures SumOf(cells[i := Plus(cells[i], v)]) == SumOf(cells) + v
  {
    var c := cells[i := Plus(cells[i], v)];
    assert cells == cells[..i] + ([cells[i]] + cells[i + 1..]);
    assert c == cells[..i] + ([Plus(cells[i], v)] + cells[i + 1..]);
    TotalsAppend(cells[..i], [cells[i]] + cells[i + 1..]);
    TotalsAppend([cells[i]], cells[i + 1..]);
    TotalsAppend(cells[..i], [Plus(cells[i], v)] + cells[i + 1..]);
    TotalsAppend([Plus(cells[i], v)], cells[i + 1..]);
  }

  /** The totals of a view are the totals of the additions that fall into it. */
  lemma {:induction false} ViewTotals(log: Log, origin: int, interval: int, slot: int, size: nat)
    requires interval > 0
    ensures CountOf(View(log, origin, interval, slot, size)) == |Within(log, origin, interval, slot - size, slot)|
    ensures SumOf(View(log, origin, interval, slot, size)) == SumOfLog(Within(log, origin, interval, slot - size, slot))
  {
    var v := View(log, origin, interval, slot, size);
    if log == [] {
      assert forall i :: 0 <= i < size ==> v[i] == EMPTY;
      assert v == Empties(size);
      TotalsEmpties(size);
    } else {
      var n := |log| - 1;
      var e := log[n];
      ViewTotals(log[..n], origin, interval, slot, size);
      var before := View(log[..n], origin, interval, slot, size);
      var k := SlotOf(origin, interval, e.at);
      var w := Within(log[..n], origin, interval, slot - size, slot);
      if slot - size < k <= slot {
        var i := k - (slot - size + 1);
        forall j | 0 <= j < size ensures v[j] == before[i := Plus(before[i], e.v)][j] {
          AggAppend(log[..n], e, origin, interval, slot - size + 1 + j);
          assert log[..n] + [e] == log;
        }
        assert v == before[i := Plus(before[i], e.v)];
        TotalsUpdate(before, i, e.v);
        assert (w + [e])[..|w|] == w;
      } else {
        forall i | 0 <= i < size ensures v[i] == before[i] {
          AggAppend(log[..n], e, origin, interval, slot - size + 1 + i);
          assert log[..n] + [e] == log;
        }
        assert v == before;
      }
    }
  }
}
