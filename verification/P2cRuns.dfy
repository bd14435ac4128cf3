/** What the picker guarantees over whole runs. */
module P2cRuns {
  import opened GoArith
  import opened P2c

  /** A pick between two nodes: its time and the loads it finds, which may be anything. */
  datatype Ask = Ask(start: int, load0: int, load1: int)

  /** When each of the two nodes was last picked; zero before the first time. */
  type Picks = (int, int)

  function Takes(p: Picks, a: Ask): bool {
    ChoosesFirst(a.load0, a.load1, p.0, p.1, a.start)
  }

  function After(asks: seq<Ask>): Picks {
    if asks == [] then (0, 0)
    else
      var p := After(asks[..|asks| - 1]);
      var a := asks[|asks| - 1];
      if Takes(p, a) then (a.start, p.1) else (p.0, a.start)
  }

  /** The node, 0 or 1, that pick `i` chooses. */
  function ChosenAt(asks: seq<Ask>, i: int): int
    requires 0 <= i < |asks|
  {
    if Takes(After(asks[..i]), asks[i]) then 0 else 1
  }

  function LastPick(p: Picks, node: int): int {
    if node == 0 then p.0 else p.1
  }

  /** Time does not go back, and consecutive picks are at most the forcing interval apart. */
  ghost predicate Busy(asks: seq<Ask>) {
    forall i :: 0 < i < |asks| ==> asks[i - 1].start <= asks[i].start <= asks[i - 1].start + FORCE_PICK
  }

  lemma AfterNext(asks: seq<Ask>, i: int)
    requires 0 <= i < |asks|
    ensures var p, p' := After(asks[..i]), After(asks[..i + 1]);
      var node := ChosenAt(asks, i);
      LastPick(p', node) == asks[i].start && LastPick(p', 1 - node) == LastPick(p, 1 - node)
  {
    assert asks[..i + 1][..i] == asks[..i];
  }

  /** A node that has waited longer than the forcing interval is chosen, whatever the loads. */
  lemma StaleIsChosen(asks: seq<Ask>, i: int, node: int)
    requires Busy(asks) && 0 < i < |asks| && (node == 0 || node == 1)
    requires asks[i].start - LastPick(After(asks[..i]), node) > FORCE_PICK
    ensures ChosenAt(asks, i) == node
  {
    AfterNext(asks, i - 1);
  }

  /** While the other node is chosen, the time of the last pick stays. */
  lemma {:induction false} PickTimeStays(asks: seq<Ask>, k: int, i: int, node: int)
    requires 0 <= k <= i <= |asks| && (node == 0 || node == 1)
    requires forall m :: k <= m < i ==> ChosenAt(asks, m) != node
    ensures LastPick(After(asks[..i]), node) == LastPick(After(asks[..k]), node)
    decreases i
  {
    if k < i {
      PickTimeStays(asks, k, i - 1, node);
      AfterNext(asks, i - 1);
    }
  }

  /** `t` is the time at which a node was last chosen before pick `i`, and zero if it was not yet. */
  ghost predicate LastChosen(asks: seq<Ask>, i: int, node: int, t: int)
    requires 0 <= i <= |asks|
  {
    || (t == 0 && forall m :: 0 <= m < i ==> ChosenAt(asks, m) != node)
    || exists k ::
         0 <= k < i && ChosenAt(asks, k) == node && asks[k].start == t
         && forall m :: k < m < i ==> ChosenAt(asks, m) != node
  }

  lemma LastChosenIsRemembered(asks: seq<Ask>, i: int, node: int, t: int)
    requires 0 <= i <= |asks| && (node == 0 || node == 1) && LastChosen(asks, i, node, t)
    ensures LastPick(After(asks[..i]), node) == t
  {
    if t == 0 && forall m :: 0 <= m < i ==> ChosenAt(asks, m) != node {
      PickTimeStays(asks, 0, i, node);
    } else {
      var k :| 0 <= k < i && ChosenAt(asks, k) == node && asks[k].start == t
               && forall m :: k < m < i ==> ChosenAt(asks, m) != node;
      AfterNext(asks, k);
      PickTimeStays(asks, k + 1, i, node);
    }
  }

  /**
   Over every run, with `t0` and `t1` the times at which the two nodes were last chosen: while neither
   has waited longer than the forcing interval the one with less load is chosen, node 0 if the loads are
   equal; if exactly one has, it is chosen; if both have, the one with more load is, and node 1 if the
   loads are equal.
   */
  lemma ChosenByLoadAndWait(asks: seq<Ask>, i: int, t0: int, t1: int)
    requires 0 <= i < |asks| && LastChosen(asks, i, 0, t0) && LastChosen(asks, i, 1, t1)
    ensures var (a, c) := (asks[i], ChosenAt(asks, i));
      var (waited0, waited1) := (a.start - t0 > FORCE_PICK, a.start - t1 > FORCE_PICK);
      && (c == 0 || c == 1)
      && (!waited0 && !waited1 ==> c == if a.load0 <= a.load1 then 0 else 1)
      && (waited0 && !waited1 ==> c == 0)
      && (!waited0 && waited1 ==> c == 1)
      && (waited0 && waited1 ==> c == if a.load0 > a.load1 then 0 else 1)
  {
    LastChosenIsRemembered(asks, i, 0, t0);
    LastChosenIsRemembered(asks, i, 1, t1);
  }

  lemma {:induction false} TimesAscend(asks: seq<Ask>, i: int, j: int)
    requires Busy(asks) && 0 <= i <= j < |asks|
    ensures asks[i].start <= asks[j].start
    decreases j
  {
    if i < j {
      TimesAscend(asks, i, j - 1);
    }
  }

  /**
   No node starves: once picked, a node is picked again within twice the forcing interval, whatever
   the loads, as long as picks keep coming.
   */
  lemma PickedAgain(asks: seq<Ask>, k: int, j: int) returns (m: int)
    requires Busy(asks) && 0 <= k < j < |asks|
    requires asks[j].start - asks[k].start > FORCE_PICK
    ensures k < m <= j && ChosenAt(asks, m) == ChosenAt(asks, k)
    ensures asks[m].start - asks[k].start <= 2 * FORCE_PICK
  {
    var node := ChosenAt(asks, k);
    AfterNext(asks, k);
    m := k + 1;
    while ChosenAt(asks, m) != node
      invariant k < m <= j
      invariant forall n :: k < n < m ==> ChosenAt(asks, n) != node
      invariant asks[m - 1].start - asks[k].start <= FORCE_PICK
      decreases j - m
    {
      PickTimeStays(asks, k + 1, m, node);
      if asks[m].start - asks[k].start > FORCE_PICK {
        StaleIsChosen(asks, m, node);
      }
      m := m + 1;
    }
  }

  /** The bound is reached: a node can wait for exactly twice the forcing interval. */
  lemma WaitOfTwiceForcePick()
    ensures var f := FORCE_PICK;
      var asks := [Ask(f, 1, 2), Ask(f, 1, 2), Ask(2 * f, 2, 1), Ask(3 * f, 2, 1)];
      && Busy(asks)
      && ChosenAt(asks, 1) == 0 && ChosenAt(asks, 2) == 1 && ChosenAt(asks, 3) == 0
      && asks[3].start - asks[1].start == 2 * f
  {
    var f := FORCE_PICK;
    var asks := [Ask(f, 1, 2), Ask(f, 1, 2), Ask(2 * f, 2, 1), Ask(3 * f, 2, 1)];
    assert asks[..0] == [];
    AfterNext(asks, 0);
    AfterNext(asks, 1);
    AfterNext(asks, 2);
  }

  /** A failed completion after some time lowers the health by at least one. */
  lemma FailureLowers(success: nat, w: real)
    requires 0.0 <= w < 1.0
    ensures Ewma(success, 0, w) <= Max(0, success - 1)
    ensures Ewma(success, 0, w) >= 0
  {
    var x := success as real * w + 0 as real * (1.0 - w);
    NotNegative(success as real, w);
    NotNegative(success as real, 1.0 - w);
    assert success as real * (1.0 - w) == success as real - success as real * w;
    if success > 0 {
      assert x < success as real by {
        PositiveProduct(success as real, 1.0 - w);
      }
    }
  }

  lemma PositiveProduct(x: real, y: real)
    requires x > 0.0 && y > 0.0
    ensures x * y > 0.0
  {
  }

  /**
   A successful completion raises the health exactly when what is missing, times the weight of the
   new sample, makes at least one: cutting to whole numbers lets frequent successes count for nothing.
   */
  lemma SuccessRaisesExactly(success: nat, w: real)
    requires 0.0 <= w <= 1.0 && success <= INIT_SUCCESS
    ensures Ewma(success, INIT_SUCCESS, w) > success <==> (INIT_SUCCESS - success) as real * (1.0 - w) >= 1.0
    ensures success <= Ewma(success, INIT_SUCCESS, w) <= INIT_SUCCESS
  {
    var x := success as real * w + INIT_SUCCESS as real * (1.0 - w);
    EwmaBetween(success, INIT_SUCCESS, w);
    assert x == success as real + (INIT_SUCCESS - success) as real * (1.0 - w);
  }

  /** A completion: when its request was picked, when it ends, and whether it failed. */
  datatype End = End(start: int, now: int, failed: bool)

  function AfterAll(s: Stats, ends: seq<End>, decay: int -> real): (r: Stats)
    requires IsDecay(decay) && s.success <= INIT_SUCCESS
    ensures r.success <= INIT_SUCCESS
  {
    if ends == [] then s
    else
      var e := ends[|ends| - 1];
      AfterDone(AfterAll(s, ends[..|ends| - 1], decay), e.start, e.now, e.failed, decay)
  }

  lemma {:induction false} LastIsNow(s: Stats, ends: seq<End>, decay: int -> real)
    requires IsDecay(decay) && s.success <= INIT_SUCCESS
    ensures AfterAll(s, ends, decay).last == if ends == [] then s.last else ends[|ends| - 1].now
    ensures AfterAll(s, ends, decay).inflight == s.inflight - |ends|
  {
    if ends != [] {
      LastIsNow(s, ends[..|ends| - 1], decay);
    }
  }

  /** When the completion before completion `i` was recorded. */
  function EndBefore(s: Stats, ends: seq<End>, i: int): int
    requires 0 <= i < |ends|
  {
    if i == 0 then s.last else ends[i - 1].now
  }

  lemma FailureIsFelt(s: Stats, e: End, decay: int -> real)
    requires IsDecay(decay) && s.success <= INIT_SUCCESS && e.failed && s.last < e.now
    ensures AfterDone(s, e.start, e.now, e.failed, decay).success <= Max(0, s.success - 1)
  {
    FailureLowers(s.success, if s.lag == 0 then 0.0 else decay(Max(0, e.now - s.last)));
  }

  /**
   Failures in a row, each later than the one before, bring the health down by at least one each: a
   thousand bring it to nothing and five hundred make the node unhealthy.
   */
  lemma {:induction false} FailuresInARow(s: Stats, ends: seq<End>, decay: int -> real)
    requires IsDecay(decay) && s.success <= INIT_SUCCESS
    requires forall i :: 0 <= i < |ends| ==> ends[i].failed
    requires forall i :: 0 <= i < |ends| ==> EndBefore(s, ends, i) < ends[i].now
    ensures AfterAll(s, ends, decay).success <= Max(0, s.success - |ends|)
    ensures |ends| >= INIT_SUCCESS ==> AfterAll(s, ends, decay).success == 0
    ensures |ends| >= INIT_SUCCESS - THROTTLE_SUCCESS ==> !(AfterAll(s, ends, decay).success > THROTTLE_SUCCESS)
  {
    if ends != [] {
      var n := |ends| - 1;
      forall i | 0 <= i < n ensures EndBefore(s, ends[..n], i) < ends[..n][i].now {
        assert EndBefore(s, ends[..n], i) == EndBefore(s, ends, i);
      }
      assert EndBefore(s, ends, n) < ends[n].now;
      FailuresInARow(s, ends[..n], decay);
      LastIsNow(s, ends[..n], decay);
      FailureIsFelt(AfterAll(s, ends[..n], decay), ends[n], decay);
    }
  }

  /** Where a request stands: running, or at one of the separate atomic accesses that record its end. */
  datatype Pc =
    | Running(start: int)
    | Counted(start: int)
    | Swapped(lag: nat, td: int)
    | SawLag(lag: nat, w: real, prior: nat)
    | StoredLag(w: real)
    | SawSuccess(w: real, prior: nat)
    | Over

  datatype Node = Node(stats: Stats, requests: seq<Pc>)

  datatype Event =
    | PickAt(start: int)
    // request `i` takes its next step; `now` and `failed` matter at the steps that read them
    | Proceed(i: nat, now: int, failed: bool)

  function Step(n: Node, e: Event, decay: int -> real): Node
    requires IsDecay(decay) && Inv(n)
  {
    match e
    case PickAt(start) => Node(Picked(n.stats, start), n.requests + [Running(start)])
    case Proceed(i, now, failed) =>
      if i >= |n.requests| then n
      else
        assert Sound(n.requests[i]);
        match n.requests[i] {
          case Running(start) =>
            Node(n.stats.(inflight := n.stats.inflight - 1), n.requests[i := Counted(start)])
          case Counted(start) =>
            Node(n.stats.(last := now), n.requests[i := Swapped(Max(0, now - start), Max(0, now - n.stats.last))])
          case Swapped(lag, td) =>
            Node(n.stats, n.requests[i := SawLag(lag, if n.stats.lag == 0 then 0.0 else decay(td), n.stats.lag)])
          case SawLag(lag, w, prior) =>
            EwmaBetween(prior, lag, w);
            Node(n.stats.(lag := Ewma(prior, lag, w)), n.requests[i := StoredLag(w)])
          case StoredLag(w) => Node(n.stats, n.requests[i := SawSuccess(w, n.stats.success)])
          case SawSuccess(w, prior) =>
            EwmaBetween(prior, if failed then 0 else INIT_SUCCESS, w);
            Node(n.stats.(success := Ewma(prior, if failed then 0 else INIT_SUCCESS, w)), n.requests[i := Over])
          case Over => n
        }
  }

  /** The requests picked for the node that have not begun to record their end. */
  function Outstanding(requests: seq<Pc>): nat {
    if requests == [] then 0
    else Outstanding(requests[..|requests| - 1]) + (if requests[|requests| - 1].Running? then 1 else 0)
  }

  ghost predicate Sound(pc: Pc) {
    match pc
    case Swapped(_, td) => td >= 0
    case SawLag(_, w, _) => 0.0 <= w <= 1.0
    case StoredLag(w) => 0.0 <= w <= 1.0
    case SawSuccess(w, prior) => 0.0 <= w <= 1.0 && prior <= INIT_SUCCESS
    case _ => true
  }

  ghost predicate Inv(n: Node) {
    && n.stats.success <= INIT_SUCCESS
    && n.stats.inflight == Outstanding(n.requests)
    && forall i :: 0 <= i < |n.requests| ==> Sound(n.requests[i])
  }

  lemma {:induction false} OutstandingUpdate(requests: seq<Pc>, i: int, pc: Pc)
    requires 0 <= i < |requests|
    ensures Outstanding(requests[i := pc])
         == Outstanding(requests) - (if requests[i].Running? then 1 else 0) + (if pc.Running? then 1 else 0)
  {
    var n := |requests| - 1;
    if i == n {
      assert requests[i := pc][..n] == requests[..n];
    } else {
      assert requests[i := pc][..n] == requests[..n][i := pc];
      OutstandingUpdate(requests[..n], i, pc);
    }
  }

  lemma StepKeepsInv(n: Node, e: Event, decay: int -> real)
    requires IsDecay(decay) && Inv(n)
    ensures Inv(Step(n, e, decay))
  {
    var n' := Step(n, e, decay);
    match e
    case PickAt(start) =>
      assert n'.requests[..|n.requests|] == n.requests;
    case Proceed(i, now, failed) =>
      if i < |n.requests| {
        var pc := n.requests[i];
        assert Sound(pc);
        OutstandingUpdate(n.requests, i, n'.requests[i]);
        if pc.SawSuccess? {
          EwmaBetween(pc.prior, if failed then 0 else INIT_SUCCESS, pc.w);
        }
      }
  }

  function Run(events: seq<Event>, decay: int -> real): (n: Node)
    requires IsDecay(decay)
    ensures Inv(n)
  {
    if events == [] then Node(Stats(0, 0, INIT_SUCCESS, 0, 0, 0), [])
    else
      var n := Run(events[..|events| - 1], decay);
      StepKeepsInv(n, events[|events| - 1], decay);
      Step(n, events[|events| - 1], decay)
  }

  function Again(n: Node, e: Event, times: nat, decay: int -> real): (r: Node)
    requires IsDecay(decay) && Inv(n)
    ensures Inv(r)
    decreases times
  {
    if times == 0 then n
    else
      StepKeepsInv(n, e, decay);
      Again(Step(n, e, decay), e, times - 1, decay)
  }

  lemma OneMore(n: Node, e: Event, times: nat, decay: int -> real) returns (n': Node)
    requires IsDecay(decay) && Inv(n) && times > 0
    ensures n' == Step(n, e, decay) && Inv(n') && Again(n, e, times, decay) == Again(n', e, times - 1, decay)
    ensures times == 1 ==> Again(n, e, times, decay) == n'
  {
    n' := Step(n, e, decay);
    StepKeepsInv(n, e, decay);
  }

  lemma RunNext(events: seq<Event>, e: Event, decay: int -> real)
    requires IsDecay(decay)
    ensures Run(events + [e], decay) == Step(Run(events, decay), e, decay)
  {
    assert (events + [e])[..|events|] == events;
  }

  lemma {:induction false} RunAgain(events: seq<Event>, e: Event, more: seq<Event>, decay: int -> real)
    requires IsDecay(decay) && forall j :: 0 <= j < |more| ==> more[j] == e
    ensures Run(events + more, decay) == Again(Run(events, decay), e, |more|, decay)
    decreases |more|
  {
    if more == [] {
      assert events + more == events;
    } else {
      RunNext(events, e, decay);
      AddOneMore(events, e, more);
      RunAgain(events + [e], e, more[1..], decay);
    }
  }

  lemma AddOneMore(events: seq<Event>, e: Event, more: seq<Event>)
    requires more != [] && more[0] == e
    ensures events + more == events + [e] + more[1..]
  {
  }

  /** A request that sees the old lag before it stores the new one. */
  lemma LagIsSeen(n: Node, i: nat, e: Event, times: nat, decay: int -> real)
    requires IsDecay(decay) && Inv(n) && i < |n.requests| && n.requests[i].Running?
    requires e.Proceed? && e.i == i && times >= 3
    ensures var w := if n.stats.lag == 0 then 0.0 else decay(Max(0, e.now - n.stats.last));
      var n' := Node(n.stats.(inflight := n.stats.inflight - 1, last := e.now),
                     n.requests[i := SawLag(Max(0, e.now - n.requests[i].start), w, n.stats.lag)]);
      Inv(n') && Again(n, e, times, decay) == Again(n', e, times - 3, decay)
  {
    var n1 := OneMore(n, e, times, decay);
    var n2 := OneMore(n1, e, times - 1, decay);
    var n3 := OneMore(n2, e, times - 2, decay);
    assert n3.requests == n.requests[i := n3.requests[i]];
  }

  lemma MixesAreStored(n: Node, i: nat, e: Event, decay: int -> real)
    requires IsDecay(decay) && Inv(n) && i < |n.requests| && n.requests[i].SawLag? && Sound(n.requests[i])
    requires e.Proceed? && e.i == i
    ensures var r := n.requests[i];
      var health := if e.failed then 0 else INIT_SUCCESS;
      && Ewma(r.prior, r.lag, r.w) >= 0 && Ewma(n.stats.success, health, r.w) >= 0
      && Again(n, e, 3, decay)
      == Node(n.stats.(lag := Ewma(r.prior, r.lag, r.w), success := Ewma(n.stats.success, health, r.w)),
              n.requests[i := Over])
  {
    EwmaBetween(n.requests[i].prior, n.requests[i].lag, n.requests[i].w);
    EwmaBetween(n.stats.success, if e.failed then 0 else INIT_SUCCESS, n.requests[i].w);
    var n1 := OneMore(n, e, 3, decay);
    var n2 := OneMore(n1, e, 2, decay);
    var n3 := OneMore(n2, e, 1, decay);
    assert n3.requests == n.requests[i := Over];
  }

  lemma SixStepsAreDone(n: Node, i: nat, e: Event, times: nat, decay: int -> real)
    requires IsDecay(decay) && Inv(n) && i < |n.requests| && n.requests[i].Running?
    requires e.Proceed? && e.i == i && times == 6
    ensures Again(n, e, times, decay)
         == Node(AfterDone(n.stats, n.requests[i].start, e.now, e.failed, decay), n.requests[i := Over])
  {
    LagIsSeen(n, i, e, times, decay);
    var w := if n.stats.lag == 0 then 0.0 else decay(Max(0, e.now - n.stats.last));
    var seen := Node(n.stats.(inflight := n.stats.inflight - 1, last := e.now),
                     n.requests[i := SawLag(Max(0, e.now - n.requests[i].start), w, n.stats.lag)]);
    assert Sound(seen.requests[i]);
    MixesAreStored(seen, i, e, decay);
    assert seen.requests[i := Over] == n.requests[i := Over];
  }

  /**
   The six single steps of one request that nothing comes between record its end as a whole: how long
   it took, and how it ended.
   */
  lemma StepsAreDone(events: seq<Event>, i: nat, now: int, failed: bool, decay: int -> real)
    requires IsDecay(decay) && i < |Run(events, decay).requests| && Run(events, decay).requests[i].Running?
    ensures var n := Run(events, decay);
      Run(events + seq(6, _ => Proceed(i, now, failed)), decay)
      == Node(AfterDone(n.stats, n.requests[i].start, now, failed, decay), n.requests[i := Over])
  {
    var e := Proceed(i, now, failed);
    var more := seq(6, _ => e);
    RunAgain(events, e, more, decay);
    SixStepsAreDone(Run(events, decay), i, e, |more|, decay);
  }

  /** With nothing negative in flight a node always has some load, so the penalty is never used. */
  lemma LoadIsPositive(lag: nat, inflight: nat)
    ensures LoadOf(lag, inflight) == Sqrt(lag + 1) * (inflight + 1) >= 1
  {
    var r := Sqrt(lag + 1);
    assert r >= 1;
    assert r * (inflight + 1) >= 1 by {
      assert r * (inflight + 1) == r * inflight + r;
    }
  }

  /**
   Over every interleaving of picks and of the single steps that record the ends of requests, the
   counter in flight equals the requests outstanding, the load is at least one, and the health stays
   in its range, although updates of different requests may overwrite each other.
   */
  lemma NodeInvariants(events: seq<Event>, decay: int -> real)
    requires IsDecay(decay)
    ensures var n := Run(events, decay);
      && n.stats.inflight == Outstanding(n.requests)
      && LoadOf(n.stats.lag, n.stats.inflight) == Sqrt(n.stats.lag + 1) * (n.stats.inflight + 1) >= 1
      && 0 <= n.stats.success <= INIT_SUCCESS
  {
    var n := Run(events, decay);
    LoadIsPositive(n.stats.lag, n.stats.inflight);
  }
}
