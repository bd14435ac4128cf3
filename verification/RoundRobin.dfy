/**
 Smooth weighted round robin over current weights alone, when every node's effective weight is its
 weight: what any run of turns does.
 */
module RoundRobin {
  import opened GoArith

  function Sum(s: seq<int>): int {
    if s == [] then 0 else Sum(s[..|s| - 1]) + s[|s| - 1]
  }

  /** `m` is the first index of a largest element. */
  ghost predicate IsFirstMax(s: seq<int>, m: int) {
    && 0 <= m < |s|
    && (forall i :: 0 <= i < |s| ==> s[i] <= s[m])
    && (forall i :: 0 <= i < m ==> s[i] < s[m])
  }

  function Added(c: seq<int>, w: seq<int>): (r: seq<int>)
    requires |c| == |w|
    ensures |r| == |c|
    ensures forall i :: 0 <= i < |c| ==> r[i] == c[i] + w[i]
  {
    seq(|c|, i requires 0 <= i < |c| => c[i] + w[i])
  }

  /** One turn: every current weight grows by its weight; the first largest is picked and pays the total. */
  ghost predicate IsTurn(c: seq<int>, w: seq<int>, m: int, t: seq<int>) {
    && |c| == |w| == |t|
    && IsFirstMax(Added(c, w), m)
    && t == Added(c, w)[m := c[m] + w[m] - Sum(w)]
  }

  lemma {:induction false} SumUpdate(s: seq<int>, i: int, v: int)
    requires 0 <= i < |s|
    ensures Sum(s[i := v]) == Sum(s) - s[i] + v
  {
    var n := |s| - 1;
    if i == n {
      assert s[i := v][..n] == s[..n];
    } else {
      assert s[i := v][..n] == s[..n][i := v];
      SumUpdate(s[..n], i, v);
    }
  }

  lemma {:induction false} SumAdded(c: seq<int>, w: seq<int>)
    requires |c| == |w|
    ensures Sum(Added(c, w)) == Sum(c) + Sum(w)
  {
    if c != [] {
      var n := |c| - 1;
      assert Added(c, w)[..n] == Added(c[..n], w[..n]);
      SumAdded(c[..n], w[..n]);
    }
  }

  lemma PaidFromAdded(c: seq<int>, w: seq<int>, m: int)
    requires |c| == |w| && 0 <= m < |c|
    ensures Sum(Added(c, w)[m := c[m] + w[m] - Sum(w)]) == Sum(c)
  {
    SumAdded(c, w);
    SumUpdate(Added(c, w), m, c[m] + w[m] - Sum(w));
  }

  /** A turn only moves weight around. */
  lemma TurnConservesSum(c: seq<int>, w: seq<int>, m: int, t: seq<int>)
    requires IsTurn(c, w, m, t)
    ensures Sum(t) == Sum(c)
  {
    PaidFromAdded(c, w, m);
  }

  lemma {:induction false} SumAtMost(s: seq<int>, bound: int)
    requires forall i :: 0 <= i < |s| ==> s[i] <= bound
    ensures Sum(s) <= |s| * bound
  {
    if s != [] {
      SumAtMost(s[..|s| - 1], bound);
      OneMore(|s| - 1, bound);
    }
  }

  lemma {:induction false} SumAtLeast(s: seq<int>, bound: int)
    requires forall i :: 0 <= i < |s| ==> s[i] >= bound
    ensures Sum(s) >= |s| * bound
  {
    if s != [] {
      SumAtLeast(s[..|s| - 1], bound);
      OneMore(|s| - 1, bound);
    }
  }

  lemma OneMore(k: int, x: int)
    ensures (k + 1) * x == k * x + x && x * (k + 1) == x * k + x
  {
  }

  /** What is left of the sum when all are at least the bound. */
  lemma OneAtMost(s: seq<int>, i: int, bound: int)
    requires 0 <= i < |s| && forall j :: 0 <= j < |s| ==> s[j] >= bound
    ensures s[i] <= Sum(s) - (|s| - 1) * bound
  {
    SumUpdate(s, i, bound);
    SumAtLeast(s[i := bound], bound);
    OneMore(|s| - 1, bound);
  }

  /** The current weights before and after each of the turns, and the node each turn picked. */
  datatype History = History(states: seq<seq<int>>, picks: seq<int>) {
    function Turns(): nat {
      |picks|
    }
  }

  ghost predicate IsRun(h: History, w: seq<int>) {
    && w != []
    && |h.states| == |h.picks| + 1
    && |h.states[0]| == |w|
    && forall k :: 0 <= k < |h.picks| ==> IsTurn(h.states[k], w, h.picks[k], h.states[k + 1])
  }

  /** How often the first `k` turns picked node `i`. */
  function Picks(h: History, k: nat, i: int): nat
    requires k <= h.Turns()
  {
    if k == 0 then 0 else Picks(h, k - 1, i) + (if h.picks[k - 1] == i then 1 else 0)
  }

  function AllPicks(h: History, k: nat, n: nat): (r: seq<int>)
    requires k <= h.Turns()
    ensures |r| == n && forall i :: 0 <= i < n ==> r[i] == Picks(h, k, i)
  {
    seq(n, i requires 0 <= i => Picks(h, k, i))
  }

  lemma {:induction false} WidthStays(h: History, w: seq<int>, k: nat)
    requires IsRun(h, w) && k <= h.Turns()
    ensures |h.states[k]| == |w|
  {
    if k > 0 {
      assert IsTurn(h.states[k - 1], w, h.picks[k - 1], h.states[k - 1 + 1]);
    }
  }

  lemma {:induction false} AllPicksSum(h: History, w: seq<int>, k: nat)
    requires IsRun(h, w) && k <= h.Turns()
    ensures Sum(AllPicks(h, k, |w|)) == k
  {
    var n := AllPicks(h, k, |w|);
    if k == 0 {
      SumAtMost(n, 0);
      SumAtLeast(n, 0);
    } else {
      AllPicksSum(h, w, k - 1);
      var before := AllPicks(h, k - 1, |w|);
      var m := h.picks[k - 1];
      assert IsTurn(h.states[k - 1], w, m, h.states[k - 1 + 1]);
      SumUpdate(before, m, before[m] + 1);
      assert n == before[m := before[m] + 1];
    }
  }

  lemma {:induction false} WeightsSum(h: History, w: seq<int>, k: nat)
    requires IsRun(h, w) && k <= h.Turns()
    ensures Sum(h.states[k]) == Sum(h.states[0])
  {
    if k > 0 {
      WeightsSum(h, w, k - 1);
      TurnConservesSum(h.states[k - 1], w, h.picks[k - 1], h.states[k - 1 + 1]);
    }
  }

  lemma FollowStep(start: int, k: int, total: int, weight: int, picks: int)
    ensures var c := start + k * weight - total * picks;
      && c + weight == start + (k + 1) * weight - total * picks
      && c + weight - total == start + (k + 1) * weight - total * (picks + 1)
  {
  }

  lemma TurnFollows(c: seq<int>, w: seq<int>, m: int, t: seq<int>, i: int, start: int, k: int, picks: int)
    requires IsTurn(c, w, m, t) && 0 <= i < |w| && c[i] == start + k * w[i] - Sum(w) * picks
    ensures t[i] == start + (k + 1) * w[i] - Sum(w) * (picks + (if i == m then 1 else 0))
  {
    FollowStep(start, k, Sum(w), w[i], picks);
    assert t[i] == c[i] + w[i] - (if i == m then Sum(w) else 0);
  }

  /** Where the weights stand follows from how often each node was picked. */
  lemma {:induction false} WeightsFollowPicks(h: History, w: seq<int>, k: nat, i: int)
    requires IsRun(h, w) && k <= h.Turns() && 0 <= i < |w|
    ensures |h.states[k]| == |w|
    ensures h.states[k][i] == h.states[0][i] + k * w[i] - Sum(w) * Picks(h, k, i)
  {
    WidthStays(h, w, k);
    if k > 0 {
      WeightsFollowPicks(h, w, k - 1, i);
      var before, m, after := h.states[k - 1], h.picks[k - 1], h.states[k - 1 + 1];
      assert IsTurn(before, w, m, after);
      TurnFollows(before, w, m, after, i, h.states[0][i], k - 1, Picks(h, k - 1, i));
    }
  }

  predicate Positive(w: seq<int>) {
    forall i :: 0 <= i < |w| ==> w[i] > 0
  }

  lemma PartAtMostSum(w: seq<int>, i: int)
    requires Positive(w) && 0 <= i < |w|
    ensures w[i] <= Sum(w)
  {
    SumUpdate(w, i, 0);
    SumAtLeast(w[i := 0], 0);
  }

  /** Of two sequences, the one with the smaller sum is smaller somewhere. */
  lemma {:induction false} SmallerSomewhere(n: seq<int>, w: seq<int>) returns (j: int)
    requires |n| == |w| && Sum(n) < Sum(w)
    ensures 0 <= j < |n| && n[j] < w[j]
  {
    var l := |n| - 1;
    if n[l] < w[l] {
      j := l;
    } else {
      j := SmallerSomewhere(n[..l], w[..l]);
    }
  }

  /** A largest element is positive when the sum is. */
  lemma LargestIsPositive(s: seq<int>, m: int)
    requires IsFirstMax(s, m) && Sum(s) > 0
    ensures s[m] > 0
  {
    if s[m] <= 0 {
      SumAtMost(s, 0);
    }
  }

  /** The grown weight of a node that started at its weight and has been picked `picks` times in `k` turns. */
  function Level(k: int, total: int, weight: int, picks: int): int {
    (k + 2 - total) * weight + total * (weight - picks)
  }

  lemma LevelBy(k: int, total: int, weight: int, picks: int)
    ensures weight + k * weight - total * picks + weight == Level(k, total, weight, picks)
  {
  }

  lemma GrownIsLevel(h: History, w: seq<int>, k: nat, i: int)
    requires IsRun(h, w) && h.states[0] == w && k <= h.Turns() && 0 <= i < |w|
    ensures |h.states[k]| == |w| && Added(h.states[k], w)[i] == Level(k, Sum(w), w[i], Picks(h, k, i))
  {
    WeightsFollowPicks(h, w, k, i);
    LevelBy(k, Sum(w), w[i], Picks(h, k, i));
  }

  lemma SignOfProduct(x: int, y: int)
    requires y > 0 && x * y > 0
    ensures x >= 1
  {
    MulStep(y, x, 1);
    assert y * x == x * y;
  }

  /**
   A node that has had its picks could only come first on the last turn of the round, and then a node
   that is short of its weight is ahead of it.
   */
  lemma LastTurn(k: int, total: int, full: int, had: int, weight: int, picks: int)
    requires 0 < full <= total && weight > 0 && picks < weight && k < total && had <= full
    requires Level(k, total, full, had) > 0 && Level(k, total, weight, picks) <= Level(k, total, full, had)
    ensures had < full
  {
    if had == full {
      SignOfProduct(k + 2 - total, full);
      MulStep(total, 0, weight - picks);
      assert false;
    }
  }

  /** The node that is picked has been picked less often than its weight. */
  lemma PickedIsBelowWeight(h: History, w: seq<int>, k: nat)
    requires IsRun(h, w) && h.states[0] == w && Positive(w) && k < Sum(w) && k < h.Turns()
    requires forall i :: 0 <= i < |w| ==> Picks(h, k, i) <= w[i]
    ensures 0 <= h.picks[k] < |w| && Picks(h, k, h.picks[k]) < w[h.picks[k]]
  {
    var m := h.picks[k];
    WeightsSum(h, w, k);
    WidthStays(h, w, k);
    assert IsTurn(h.states[k], w, m, h.states[k + 1]);
    SumAdded(h.states[k], w);
    LargestIsPositive(Added(h.states[k], w), m);
    AllPicksSum(h, w, k);
    var j := SmallerSomewhere(AllPicks(h, k, |w|), w);
    PartAtMostSum(w, m);
    GrownIsLevel(h, w, k, m);
    GrownIsLevel(h, w, k, j);
    LastTurn(k, Sum(w), w[m], Picks(h, k, m), w[j], Picks(h, k, j));
  }

  /** Within one round no node is picked more often than its weight. */
  lemma {:induction false} NeverAboveWeight(h: History, w: seq<int>, k: nat)
    requires IsRun(h, w) && h.states[0] == w && Positive(w) && k <= Sum(w) && k <= h.Turns()
    ensures forall i :: 0 <= i < |w| ==> Picks(h, k, i) <= w[i]
  {
    if k > 0 {
      NeverAboveWeight(h, w, k - 1);
      PickedIsBelowWeight(h, w, k - 1);
    }
  }

  lemma {:induction false} EqualEverywhere(n: seq<int>, w: seq<int>)
    requires |n| == |w| && Sum(n) == Sum(w) && forall i :: 0 <= i < |n| ==> n[i] <= w[i]
    ensures n == w
  {
    if n != [] {
      var l := |n| - 1;
      SumLeq(n[..l], w[..l]);
      EqualEverywhere(n[..l], w[..l]);
      assert n == n[..l] + [n[l]] && w == w[..l] + [w[l]];
    }
  }

  lemma {:induction false} SumLeq(n: seq<int>, w: seq<int>)
    requires |n| == |w| && forall i :: 0 <= i < |n| ==> n[i] <= w[i]
    ensures Sum(n) <= Sum(w)
  {
    if n != [] {
      SumLeq(n[..|n| - 1], w[..|n| - 1]);
    }
  }

  /**
   A round of as many turns as the weights add up to picks every node exactly as often as its weight
   says, and leads back to the start.
   */
  lemma RoundPicksByWeight(h: History, w: seq<int>)
    requires IsRun(h, w) && h.states[0] == w && Positive(w) && 0 <= Sum(w) <= h.Turns()
    ensures h.states[Sum(w)] == w
    ensures forall i :: 0 <= i < |w| ==> Picks(h, Sum(w), i) == w[i]
  {
    var total := Sum(w);
    AllPicksSum(h, w, total);
    NeverAboveWeight(h, w, total);
    EqualEverywhere(AllPicks(h, total, |w|), w);
    WidthStays(h, w, total);
    forall i | 0 <= i < |w| ensures h.states[total][i] == w[i] && Picks(h, total, i) == w[i] {
      assert AllPicks(h, total, |w|)[i] == w[i];
      WeightsFollowPicks(h, w, total, i);
    }
  }

  /** The run that begins where the first `j` turns ended. */
  function From(h: History, j: nat): History
    requires j <= h.Turns() && |h.states| == |h.picks| + 1
  {
    History(h.states[j..], h.picks[j..])
  }

  lemma {:induction false} PicksFrom(h: History, j: nat, k: nat, i: int)
    requires j + k <= h.Turns() && |h.states| == |h.picks| + 1
    ensures Picks(h, j + k, i) == Picks(h, j, i) + Picks(From(h, j), k, i)
  {
    if k > 0 {
      PicksFrom(h, j, k - 1, i);
    }
  }

  lemma FromIsRun(h: History, w: seq<int>, j: nat)
    requires IsRun(h, w) && j <= h.Turns()
    ensures IsRun(From(h, j), w)
  {
    WidthStays(h, w, j);
    var f := From(h, j);
    forall k | 0 <= k < |f.picks| ensures IsTurn(f.states[k], w, f.picks[k], f.states[k + 1]) {
      assert IsTurn(h.states[j + k], w, h.picks[j + k], h.states[j + k + 1]);
    }
  }

  lemma NextRound(h: History, w: seq<int>, before: nat, i: int)
    requires IsRun(h, w) && Positive(w) && 0 <= i < |w| && Sum(w) >= 0
    requires before + Sum(w) <= h.Turns() && h.states[before] == w
    ensures h.states[before + Sum(w)] == w
    ensures Picks(h, before + Sum(w), i) == Picks(h, before, i) + w[i]
  {
    FromIsRun(h, w, before);
    RoundPicksByWeight(From(h, before), w);
    PicksFrom(h, before, Sum(w), i);
  }

  /** `n` times `x`, by adding up. */
  function Times(n: nat, x: nat): nat {
    if n == 0 then 0 else Times(n - 1, x) + x
  }

  lemma {:induction false} TimesIsProduct(n: nat, x: nat)
    ensures Times(n, x) == n * x
  {
    if n > 0 {
      TimesIsProduct(n - 1, x);
      OneMore(n - 1, x);
    }
  }

  /** The same holds round after round. */
  lemma {:induction false} RoundsPickByWeight(h: History, w: seq<int>, rounds: nat, i: int)
    requires IsRun(h, w) && h.states[0] == w && Positive(w) && 0 <= i < |w| && 0 <= Sum(w)
    requires Times(rounds, Sum(w)) <= h.Turns()
    ensures h.states[Times(rounds, Sum(w))] == w
    ensures Picks(h, Times(rounds, Sum(w)), i) == Times(rounds, w[i])
    decreases rounds
  {
    if rounds > 0 {
      RoundsPickByWeight(h, w, rounds - 1, i);
      NextRound(h, w, Times(rounds - 1, Sum(w)), i);
    }
  }

  /** A floor that no current weight can fall through. */
  ghost predicate Floor(c: seq<int>, w: seq<int>, lo: int) {
    && |c| == |w|
    && (forall i :: 0 <= i < |c| ==> c[i] >= lo)
    && |c| * (lo + Sum(w)) <= Sum(c) + Sum(w)
  }

  lemma TurnKeepsFloor(c: seq<int>, w: seq<int>, lo: int, m: int, t: seq<int>)
    requires Positive(w) && Floor(c, w, lo) && IsTurn(c, w, m, t)
    ensures Floor(t, w, lo)
  {
    TurnConservesSum(c, w, m, t);
    SumAdded(c, w);
    // the largest is at least the average
    SumAtMost(Added(c, w), c[m] + w[m]);
    LeqFromProduct(|c|, lo + Sum(w), c[m] + w[m]);
  }

  lemma LeqFromProduct(n: int, x: int, y: int)
    requires n > 0 && n * x <= n * y
    ensures x <= y
  {
    MulStep(n, y, x);
  }

  lemma {:induction false} RunKeepsFloor(h: History, w: seq<int>, lo: int, k: nat)
    requires IsRun(h, w) && Positive(w) && Floor(h.states[0], w, lo) && k <= h.Turns()
    ensures Floor(h.states[k], w, lo)
  {
    if k > 0 {
      RunKeepsFloor(h, w, lo, k - 1);
      TurnKeepsFloor(h.states[k - 1], w, lo, h.picks[k - 1], h.states[k - 1 + 1]);
    }
  }

  /**
   Fair from any start: however many turns there are, the picks of a node, times the total weight,
   stay within fixed bounds of its weight times the number of turns.
   */
  lemma FairFromAnyStart(h: History, w: seq<int>, lo: int, k: nat, i: int)
    requires IsRun(h, w) && Positive(w) && Floor(h.states[0], w, lo) && k <= h.Turns() && 0 <= i < |w|
    ensures var c := h.states[0];
      c[i] - Sum(c) + (|w| - 1) * lo <= Sum(w) * Picks(h, k, i) - k * w[i] <= c[i] - lo
  {
    RunKeepsFloor(h, w, lo, k);
    WeightsFollowPicks(h, w, k, i);
    WeightsSum(h, w, k);
    OneAtMost(h.states[k], i, lo);
  }

  /** There is a floor under every start. */
  lemma FloorExists(c: seq<int>, w: seq<int>) returns (lo: int)
    requires |c| == |w| > 0 && Positive(w)
    ensures Floor(c, w, lo)
  {
    SumAtLeast(w, 0);
    lo := Min(0, Sum(c)) - 2 * Sum(w);
    var k := 0;
    while k < |c|
      invariant 0 <= k <= |c| && lo <= Min(0, Sum(c)) - 2 * Sum(w)
      invariant forall i :: 0 <= i < k ==> c[i] >= lo
    {
      lo := Min(lo, c[k]);
      k := k + 1;
    }
    MulBelow(|c|, lo + Sum(w));
  }

  lemma MulBelow(n: int, x: int)
    requires n >= 1 && x <= 0
    ensures n * x <= x
  {
    if n > 1 {
      MulStep(n - 1, x, 1);
      OneMore(n - 1, x);
    }
  }
}
