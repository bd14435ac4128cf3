/** The picker that compares two nodes and takes the one with less load. */
module P2c {
  import opened GoArith

  const FORCE_PICK := 1_000_000_000
  const INIT_SUCCESS := 1000
  const THROTTLE_SUCCESS := 500
  const PENALTY := 2147483647
  const PICK_TIMES := 3

  /** The integer part of the square root. */
  function Sqrt(n: nat): (r: nat)
    ensures r * r <= n < (r + 1) * (r + 1)
  {
    if n == 0 then 0
    else
      var r := Sqrt(n - 1);
      if (r + 1) * (r + 1) <= n then r + 1 else r
  }

  function LoadOf(lag: nat, inflight: int): int {
    var load := Sqrt(lag + 1) * (inflight + 1);
    if load == 0 then PENALTY else load
  }

  /** The moving average, cut to a whole number. */
  function Ewma(prior: int, sample: int, w: real): int {
    Trunc(prior as real * w + sample as real * (1.0 - w))
  }

  /** A stand-in for exp(-td / decay time): in (0, 1], and 1 only for no time at all. */
  ghost predicate IsDecay(decay: int -> real) {
    forall td :: td >= 0 ==> 0.0 < decay(td) <= 1.0 && (decay(td) == 1.0 <==> td == 0)
  }

  /** The fields of a connection. */
  datatype Stats = Stats(lag: nat, inflight: int, success: nat, requests: int, last: int, pick: int)

  /** A new average is mixed from an old one and a sample, and cut to a whole number. */
  predicate Mixes(r: int, prior: int, sample: int, w: real) {
    r as real <= prior as real * w + sample as real * (1.0 - w) < (r + 1) as real
  }

  lemma EwmaMixes(prior: nat, sample: nat, w: real)
    requires 0.0 <= w <= 1.0
    ensures Mixes(Ewma(prior, sample, w), prior, sample, w)
  {
    NotNegative(prior as real, w);
    NotNegative(sample as real, 1.0 - w);
  }

  /**
   What the end of a request leaves: the time it took is mixed into the lag, and its success into the
   health, with the weight of what was there before decaying since the last end.
   */
  function AfterDone(s: Stats, start: int, now: int, failed: bool, decay: int -> real): (r: Stats)
    requires IsDecay(decay) && s.success <= INIT_SUCCESS
    ensures r.success <= INIT_SUCCESS
    ensures s.lag == 0 ==> r.lag == Max(0, now - start) && r.success == if failed then 0 else INIT_SUCCESS
    ensures s.lag != 0 ==>
      && Mixes(r.lag, s.lag, Max(0, now - start), decay(Max(0, now - s.last)))
      && Mixes(r.success, s.success, if failed then 0 else INIT_SUCCESS, decay(Max(0, now - s.last)))
    ensures Min(s.lag, Max(0, now - start)) <= r.lag <= Max(s.lag, Max(0, now - start))
    ensures if failed then r.success <= s.success else s.success <= r.success
    ensures r.inflight == s.inflight - 1 && r.last == now && r.requests == s.requests && r.pick == s.pick
  {
    var w := if s.lag == 0 then 0.0 else decay(Max(0, now - s.last));
    var lag := Max(0, now - start);
    EwmaBetween(s.lag, lag, w);
    EwmaBetween(s.success, if failed then 0 else INIT_SUCCESS, w);
    EwmaMixes(s.lag, lag, w);
    EwmaMixes(s.success, if failed then 0 else INIT_SUCCESS, w);
    EwmaBetween(s.lag, lag, w);
    EwmaBetween(s.success, if failed then 0 else INIT_SUCCESS, w);
    s.(inflight := s.inflight - 1,
       last := now,
       lag := Ewma(s.lag, lag, w),
       success := Ewma(s.success, if failed then 0 else INIT_SUCCESS, w))
  }

  /** The average lies between the old value and the sample. */
  lemma EwmaBetween(prior: nat, sample: nat, w: real)
    requires 0.0 <= w <= 1.0
    ensures Min(prior, sample) <= Ewma(prior, sample, w) <= Max(prior, sample)
  {
    var lo, hi := Min(prior, sample) as real, Max(prior, sample) as real;
    MixBetween(prior as real, sample as real, w, lo, hi);
  }

  lemma NotNegative(x: real, y: real)
    requires x >= 0.0 && y >= 0.0
    ensures x * y >= 0.0
  {
  }

  lemma MixBetween(a: real, b: real, w: real, lo: real, hi: real)
    requires 0.0 <= w <= 1.0 && lo <= a <= hi && lo <= b <= hi
    ensures lo <= a * w + b * (1.0 - w) <= hi
  {
    NotNegative(a - lo, w);
    NotNegative(b - lo, 1.0 - w);
    NotNegative(hi - a, w);
    NotNegative(hi - b, 1.0 - w);
    assert lo * w + lo * (1.0 - w) == lo && hi * w + hi * (1.0 - w) == hi;
  }

  function Picked(s: Stats, start: int): Stats {
    s.(inflight := s.inflight + 1, requests := s.requests + 1, pick := start)
  }

  /**
   The choice between two nodes: the one with less load, or else the first, unless exactly one of the
   two was last picked longer than the forcing interval ago, which is then taken, or both were, and
   then the one with more load is taken, or else the second.
   */
  ghost predicate RightChoice(first: bool, load1: int, load2: int, pick1: int, pick2: int, start: int) {
    var (waited1, waited2) := (start - pick1 > FORCE_PICK, start - pick2 > FORCE_PICK);
    && (!waited1 && !waited2 ==> (first <==> load1 <= load2))
    && (waited1 && !waited2 ==> first)
    && (!waited1 && waited2 ==> !first)
    && (waited1 && waited2 ==> (first <==> load1 > load2))
  }

  /** Of two nodes, is the first one chosen? The one with more load is, if it has waited long enough. */
  predicate ChoosesFirst(load1: int, load2: int, pick1: int, pick2: int, start: int): (first: bool)
    ensures RightChoice(first, load1, load2, pick1, pick2, start)
  {
    if load1 > load2 then start - pick1 > FORCE_PICK else !(start - pick2 > FORCE_PICK)
  }

  class SubConn {
    var lag: nat
    var inflight: int
    var success: nat
    var requests: int
    var last: int
    var pick: int

    function State(): Stats
      reads this
    {
      Stats(lag, inflight, success, requests, last, pick)
    }

    constructor ()
      ensures State() == Stats(0, 0, INIT_SUCCESS, 0, 0, 0)
    {
      lag, inflight, success, requests, last, pick := 0, 0, INIT_SUCCESS, 0, 0, 0;
    }

    /** More than half of what the health begins with is left. */
    predicate Healthy(): (h: bool)
      reads this
      ensures h <==> 2 * success > INIT_SUCCESS
    {
      success > THROTTLE_SUCCESS
    }

    function Load(): int
      reads this
    {
      LoadOf(lag, inflight)
    }

    /** A request that was picked at `start` is over. */
    method Done(start: int, now: int, failed: bool, ghost decay: int -> real, w0: real)
      requires IsDecay(decay) && success <= INIT_SUCCESS && w0 == decay(Max(0, now - last))
      modifies this
      ensures State() == AfterDone(old(State()), start, now, failed, decay)
      ensures old(lag) == 0 ==> lag == Max(0, now - start) && success == if failed then 0 else INIT_SUCCESS
      ensures old(lag) != 0 ==>
        && Mixes(lag, old(lag), Max(0, now - start), w0)
        && Mixes(success, old(success), if failed then 0 else INIT_SUCCESS, w0)
      ensures inflight == old(inflight) - 1 && last == now && requests == old(requests) && pick == old(pick)
    {
      inflight := inflight - 1;
      last := now;
      var w := w0;
      var sample := now - start;
      if sample < 0 {
        sample := 0;
      }
      if lag == 0 {
        w := 0.0;
      }
      EwmaBetween(lag, sample, w);
      lag := Ewma(lag, sample, w);
      var good := if failed then 0 else INIT_SUCCESS;
      EwmaBetween(success, good, w);
      success := Ewma(success, good, w);
    }
  }

  class Picker {
    const conns: seq<SubConn>

    ghost predicate Valid() {
      forall i, j :: 0 <= i < j < |conns| ==> conns[i] != conns[j]
    }

    constructor (conns: seq<SubConn>)
      requires forall i, j :: 0 <= i < j < |conns| ==> conns[i] != conns[j]
      ensures Valid() && this.conns == conns
    {
      this.conns := conns;
    }

    method Choose(c1: SubConn, c2: SubConn?, start: int) returns (chosen: SubConn)
      requires c1 != c2
      modifies c1, c2
      ensures chosen == c1 || chosen == c2
      ensures c2 != null && old(c1.Load()) > old(c2.Load()) ==>
        (chosen == c1 <==> start - old(c1.pick) > FORCE_PICK)
      ensures c2 != null && old(c1.Load()) <= old(c2.Load()) ==>
        (chosen == c2 <==> start - old(c2.pick) > FORCE_PICK)
      ensures c2 != null ==>
        old(RightChoice(chosen == c1, c1.Load(), c2.Load(), c1.pick, c2.pick, start))
      ensures chosen.State() == old(chosen.State()).(pick := start)
      ensures c1 != chosen ==> c1.State() == old(c1.State())
      ensures c2 != null && c2 != chosen ==> c2.State() == old(c2.State())
    {
      if c2 == null {
        c1.pick := start;
        return c1;
      }
      var less, more := c1, c2;
      if c1.Load() > c2.Load() {
        less, more := c2, c1;
      }
      if start - more.pick > FORCE_PICK {
        more.pick := start;
        return more;
      }
      less.pick := start;
      return less;
    }

    /**
     Picks a node at time `start`. With three nodes or more, `draws` are the random pairs of up to
     three attempts, the second number leaving out the first.
     */
    method Pick(start: int, draws: seq<(int, int)>) returns (chosen: SubConn?)
      requires Valid()
      requires |draws| == PICK_TIMES
      requires |conns| > 2 ==>
        forall t :: 0 <= t < |draws| ==> 0 <= draws[t].0 < |conns| && 0 <= draws[t].1 < |conns| - 1
      modifies conns
      ensures conns == [] <==> chosen == null
      ensures |conns| == 1 ==> chosen == conns[0]
      ensures |conns| == 2 ==>
        && chosen in conns
        && old(RightChoice(chosen == conns[0],
                           conns[0].Load(), conns[1].Load(), conns[0].pick, conns[1].pick, start))
      ensures |conns| > 2 ==>
        exists t :: 0 <= t < PICK_TIMES && old(Settled(draws, t))
          && (chosen == First(draws[t]) || chosen == Second(draws[t]))
          && old(RightOfDraw(chosen == First(draws[t]), draws[t], start))
      ensures chosen != null ==>
        && chosen in conns
        && chosen.State() == Picked(old(chosen.State()), start)
        && chosen.inflight == old(chosen.inflight) + 1 && chosen.requests == old(chosen.requests) + 1
        && chosen.pick == start && chosen.lag == old(chosen.lag)
        && chosen.success == old(chosen.success) && chosen.last == old(chosen.last)
      ensures forall c <- conns :: c != chosen ==> c.State() == old(c.State())
    {
      if |conns| == 0 {
        return null;
      } else if |conns| == 1 {
        chosen := Choose(conns[0], null, start);
      } else if |conns| == 2 {
        chosen := Choose(conns[0], conns[1], start);
      } else {
        var node1, node2 := First(draws[0]), Second(draws[0]);
        var t := 0;
        while t < PICK_TIMES - 1 && !(node1.Healthy() && node2.Healthy())
          invariant 0 <= t < PICK_TIMES
          invariant node1 == First(draws[t]) && node2 == Second(draws[t])
          invariant forall u :: 0 <= u < t ==> !(First(draws[u]).Healthy() && Second(draws[u]).Healthy())
        {
          t := t + 1;
          node1, node2 := First(draws[t]), Second(draws[t]);
        }
        assert Settled(draws, t);
        chosen := Choose(node1, node2, start);
      }
      chosen.inflight := chosen.inflight + 1;
      chosen.requests := chosen.requests + 1;
    }

    function First(draw: (int, int)): SubConn
      requires |conns| > 2 && 0 <= draw.0 < |conns|
    {
      conns[draw.0]
    }

    /** The second node of a draw, never the same as the first. */
    function Second(draw: (int, int)): SubConn
      requires |conns| > 2 && 0 <= draw.0 < |conns| && 0 <= draw.1 < |conns| - 1
    {
      conns[if draw.1 >= draw.0 then draw.1 + 1 else draw.1]
    }

    /** The attempt that decides: the first with two healthy nodes, or else the last. */
    ghost predicate Settled(draws: seq<(int, int)>, t: int)
      requires |conns| > 2 && 0 <= t < |draws| == PICK_TIMES
      requires forall t :: 0 <= t < |draws| ==> 0 <= draws[t].0 < |conns| && 0 <= draws[t].1 < |conns| - 1
      reads conns
    {
      && (t == PICK_TIMES - 1 || (First(draws[t]).Healthy() && Second(draws[t]).Healthy()))
      && forall u :: 0 <= u < t ==> !(First(draws[u]).Healthy() && Second(draws[u]).Healthy())
    }

    /** The choice between the two nodes of a draw is right. */
    ghost predicate RightOfDraw(first: bool, draw: (int, int), start: int)
      requires |conns| > 2 && 0 <= draw.0 < |conns| && 0 <= draw.1 < |conns| - 1
      reads conns
    {
      var c1, c2 := First(draw), Second(draw);
      RightChoice(first, c1.Load(), c2.Load(), c1.pick, c2.pick, start)
    }

    /** Every two different nodes, in either order, come from exactly one draw. */
    lemma EveryPairHasOneDraw(i: int, j: int) returns (draw: (int, int))
      requires Valid() && |conns| > 2
      requires 0 <= i < |conns| && 0 <= j < |conns| && i != j
      ensures 0 <= draw.0 < |conns| && 0 <= draw.1 < |conns| - 1
      ensures First(draw) == conns[i] && Second(draw) == conns[j]
      ensures forall a, b :: 0 <= a < |conns| && 0 <= b < |conns| - 1 && (a, b) != draw ==>
        !(First((a, b)) == conns[i] && Second((a, b)) == conns[j])
    {
      draw := (i, if j > i then j - 1 else j);
    }
  }
}
