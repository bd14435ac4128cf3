/** How often smooth weighted round robin uses its nodes over whole runs of calls. */
module WeightedFairness {
  import opened GoArith
  import opened RoundRobin
  import opened WeightedPass
  import opened NextEnds
  import opened WeightedRoundRobin

  ghost predicate IsCalls(h: Calls) {
    && |h.states| == |h.picks| + 1
    && forall k :: 0 <= k < |h.picks| ==> AllAlive(h.states[k]) && IsCall(h.states[k], h.picks[k], h.states[k + 1])
  }

  lemma CallRaises(ns: seq<NodeState>, m: int, after: seq<NodeState>, i: int)
    requires IsCall(ns, m, after) && 0 <= i < |ns|
    ensures after[i].weight == ns[i].weight && after[i].effective == Raised(ns[i]).effective
  {
    var rest := after[m := after[m].(uses := ns[m].uses)];
    assert rest[i].effective == RaisedAll(ns)[i].effective;
    assert rest[i].effective == after[i].effective && rest[i].weight == after[i].weight;
  }

  /**
   While all nodes are alive every effective weight climbs by one a call to its weight and stays
   there, so however they start the nodes settle after as many calls as the largest weight.
   */
  lemma {:induction false} EffectivesClimb(h: Calls, k: nat, i: int)
    requires IsCalls(h) && k <= |h.picks| && 0 <= i < |h.states[0]| && h.states[0][i].effective <= h.states[0][i].weight
    ensures |h.states[k]| == |h.states[0]| && h.states[k][i].weight == h.states[0][i].weight
    ensures h.states[k][i].effective == Min(h.states[0][i].effective + k, h.states[0][i].weight)
  {
    if k > 0 {
      EffectivesClimb(h, k - 1, i);
      var before, after := h.states[k - 1], h.states[k - 1 + 1];
      assert AllAlive(before) && IsCall(before, h.picks[k - 1], after);
      CallRaises(before, h.picks[k - 1], after, i);
    }
  }

  lemma CallIsTurn(ns: seq<NodeState>, m: int, after: seq<NodeState>)
    requires Settled(ns) && IsCall(ns, m, after)
    ensures IsTurn(Currents(ns), Effectives(ns), m, Currents(after))
    ensures Settled(after) && Effectives(after) == Effectives(ns)
  {
    var rest := after[m := after[m].(uses := ns[m].uses)];
    SettledPassIsTurn(ns, m, rest);
    assert Currents(rest) == Currents(after) && Effectives(rest) == Effectives(after);
    forall i | 0 <= i < |ns| ensures after[i].effective == after[i].weight > 0 {
      assert rest[i] == ns[i].(current := rest[i].current);
    }
  }

  lemma CallCountsOne(ns: seq<NodeState>, m: int, after: seq<NodeState>, i: int)
    requires IsCall(ns, m, after) && 0 <= i < |ns|
    ensures after[i].uses == ns[i].uses + (if i == m then 1 else 0)
  {
    var rest := after[m := after[m].(uses := ns[m].uses)];
    assert rest[i].uses == RaisedAll(ns)[i].uses;
  }

  /** The current weights the calls go through. */
  function Traced(h: Calls): (r: History)
    ensures r.picks == h.picks && |r.states| == |h.states|
    ensures forall k :: 0 <= k < |h.states| ==> r.states[k] == Currents(h.states[k])
  {
    History(seq(|h.states|, k requires 0 <= k < |h.states| => Currents(h.states[k])), h.picks)
  }

  lemma {:induction false} CallsStaySettled(h: Calls, k: nat)
    requires IsCalls(h) && Settled(h.states[0]) && k <= |h.picks|
    ensures Settled(h.states[k]) && Effectives(h.states[k]) == Effectives(h.states[0])
  {
    if k > 0 {
      CallsStaySettled(h, k - 1);
      assert IsCall(h.states[k - 1], h.picks[k - 1], h.states[k - 1 + 1]);
      CallIsTurn(h.states[k - 1], h.picks[k - 1], h.states[k - 1 + 1]);
    }
  }

  lemma CallsAreTurns(h: Calls)
    requires IsCalls(h) && Settled(h.states[0]) && h.states[0] != []
    ensures IsRun(Traced(h), Effectives(h.states[0]))
  {
    var w := Effectives(h.states[0]);
    forall k | 0 <= k < |h.picks| ensures IsTurn(Traced(h).states[k], w, h.picks[k], Traced(h).states[k + 1]) {
      CallsStaySettled(h, k);
      assert IsCall(h.states[k], h.picks[k], h.states[k + 1]);
      CallIsTurn(h.states[k], h.picks[k], h.states[k + 1]);
    }
  }

  /** While all nodes are alive a node counts as many uses as the calls that picked it. */
  lemma {:induction false} UsesArePicks(h: Calls, k: nat, i: int)
    requires IsCalls(h) && k <= |h.picks| && 0 <= i < |h.states[0]|
    ensures |h.states[k]| == |h.states[0]|
    ensures h.states[k][i].uses == h.states[0][i].uses + Picks(Traced(h), k, i)
  {
    if k > 0 {
      UsesArePicks(h, k - 1, i);
      assert IsCall(h.states[k - 1], h.picks[k - 1], h.states[k - 1 + 1]);
      CallCountsOne(h.states[k - 1], h.picks[k - 1], h.states[k - 1 + 1], i);
    }
  }

  /**
   From current and effective weights that equal the weights, with all nodes alive, every node is used
   as often as its weight says in each round of as many calls as the weights add up to.
   */
  lemma UsesByWeight(h: Calls, rounds: nat, i: int)
    requires IsCalls(h) && Settled(h.states[0]) && 0 <= i < |h.states[0]|
    requires forall j :: 0 <= j < |h.states[0]| ==> h.states[0][j].current == h.states[0][j].weight
    requires 0 <= Sum(Effectives(h.states[0])) && Times(rounds, Sum(Effectives(h.states[0]))) <= |h.picks|
    ensures var n := Times(rounds, Sum(Effectives(h.states[0])));
      |h.states[n]| == |h.states[0]|
      && h.states[n][i].uses == h.states[0][i].uses + Times(rounds, h.states[0][i].weight)
  {
    var w := Effectives(h.states[0]);
    CallsAreTurns(h);
    assert Traced(h).states[0] == w;
    RoundsPickByWeight(Traced(h), w, rounds, i);
    UsesArePicks(h, Times(rounds, Sum(w)), i);
  }

  // ----- how far uses stay from the share

  /** What a node that climbs to its weight one by one will have been short of it altogether. */
  function Debt(n: NodeState): int {
    Triangle(n.weight - n.effective)
  }

  function Debts(ns: seq<NodeState>): (r: seq<int>)
    ensures |r| == |ns| && forall i :: 0 <= i < |ns| ==> r[i] == Debt(ns[i])
  {
    seq(|ns|, i requires 0 <= i < |ns| => Debt(ns[i]))
  }

  /** Effective weights that are not negative, and sound. */
  predicate Climbing(ns: seq<NodeState>) {
    Sound(ns) && forall i :: 0 <= i < |ns| ==> ns[i].effective >= 0
  }

  lemma CallOnNode(ns: seq<NodeState>, m: int, after: seq<NodeState>, i: int)
    requires IsCall(ns, m, after) && 0 <= i < |ns|
    ensures after[i].current == ns[i].current + ns[i].effective - (if i == m then Sum(Effectives(ns)) else 0)
    ensures after[i].effective == Raised(ns[i]).effective && after[i].weight == ns[i].weight
    ensures after[i].uses == ns[i].uses + (if i == m then 1 else 0)
  {
    var rest := after[m := after[m].(uses := ns[m].uses)];
    PassOnNode(ns, m, rest, i);
    assert i != m ==> rest[i] == after[i];
  }

  lemma CallKeepsClimbing(ns: seq<NodeState>, m: int, after: seq<NodeState>)
    requires IsCall(ns, m, after) && AllAlive(ns) && Climbing(ns)
    ensures Climbing(after) && Weights(after) == Weights(ns)
  {
    forall i | 0 <= i < |ns|
      ensures after[i].weight == ns[i].weight > 0 && 0 <= after[i].effective <= after[i].weight
    {
      CallOnNode(ns, m, after, i);
    }
  }

  /** The weights are the effective weights and what the live nodes have to climb. */
  lemma ClimbIsMissing(ns: seq<NodeState>)
    requires AllAlive(ns)
    ensures Sum(Weights(ns)) == Sum(Effectives(ns)) + Climb(ns)
  {
    assert Weights(ns) == Added(Effectives(ns), Gaps(ns));
    SumAdded(Effectives(ns), Gaps(ns));
  }

  /** A call pays off of every debt what the node is short of now. */
  lemma CallPaysDebts(ns: seq<NodeState>, m: int, after: seq<NodeState>)
    requires IsCall(ns, m, after) && AllAlive(ns) && Sound(ns)
    ensures Sum(Debts(ns)) == Sum(Debts(after)) + Climb(ns)
    ensures forall i :: 0 <= i < |ns| ==> Debt(ns[i]) == Debt(after[i]) + Gap(ns[i])
  {
    forall i | 0 <= i < |ns| ensures Debts(ns)[i] == Debts(after)[i] + Gaps(ns)[i] {
      CallOnNode(ns, m, after, i);
    }
    assert Debts(ns) == Added(Debts(after), Gaps(ns));
    SumAdded(Debts(after), Gaps(ns));
  }

  /** Where the current weight of a node would be, but for its share of the calls and its uses. */
  function Drift(n: NodeState, total: int, k: int, uses: int): int {
    n.current + total * uses - k * n.weight
  }

  lemma DriftStep(current: int, effective: int, weight: int, total: int, k: int, uses: int, paid: int, picked: bool)
    ensures var (c, u) := if picked then (current + effective - paid, uses + 1) else (current + effective, uses);
      c + total * u - (k + 1) * weight
      == current + total * uses - k * weight - (weight - effective) + (if picked then total - paid else 0)
  {
  }

  lemma DriftOfCall(ns: seq<NodeState>, m: int, after: seq<NodeState>, i: int, k: nat, uses: int)
    requires IsCall(ns, m, after) && AllAlive(ns) && Climbing(ns) && 0 <= i < |ns|
    ensures var w := Sum(Weights(ns));
      var (d, d') := (Drift(ns[i], w, k, uses), Drift(after[i], w, k + 1, uses + after[i].uses - ns[i].uses));
      -Gap(ns[i]) <= d' - d <= Climb(ns)
  {
    CallOnNode(ns, m, after, i);
    ClimbIsMissing(ns);
    GapPartOfClimb(ns, i);
    DriftStep(ns[i].current, ns[i].effective, ns[i].weight, Sum(Weights(ns)), k, uses, Sum(Effectives(ns)), i == m);
  }

  lemma GapPartOfClimb(ns: seq<NodeState>, i: int)
    requires Sound(ns) && 0 <= i < |ns|
    ensures 0 <= Gap(ns[i]) <= Climb(ns)
  {
    PartOfSum(Gaps(ns), i);
  }

  /** The drift went down by no more than the node's own debt and up by no more than all debts paid. */
  ghost predicate DriftNear(s: seq<NodeState>, t: seq<NodeState>, k: nat, i: int) {
    && |t| == |s| && 0 <= i < |s| && Climbing(t) && Weights(t) == Weights(s)
    && var drift := Drift(t[i], Sum(Weights(s)), k, t[i].uses - s[i].uses);
       s[i].current - Debt(s[i]) + Debt(t[i]) <= drift <= s[i].current + Sum(Debts(s)) - Sum(Debts(t))
  }

  lemma CallKeepsDriftNear(s: seq<NodeState>, t: seq<NodeState>, k: nat, i: int, m: int, after: seq<NodeState>)
    requires DriftNear(s, t, k, i) && IsCall(t, m, after) && AllAlive(t)
    ensures DriftNear(s, after, k + 1, i)
  {
    DriftOfCall(t, m, after, i, k, t[i].uses - s[i].uses);
    CallPaysDebts(t, m, after);
    CallKeepsClimbing(t, m, after);
  }

  lemma {:induction false} DriftStaysNear(h: Calls, k: nat, i: int)
    requires IsCalls(h) && k <= |h.picks| && 0 <= i < |h.states[0]| && Climbing(h.states[0])
    ensures DriftNear(h.states[0], h.states[k], k, i)
  {
    if k > 0 {
      DriftStaysNear(h, k - 1, i);
      assert AllAlive(h.states[k - 1]) && IsCall(h.states[k - 1], h.picks[k - 1], h.states[k - 1 + 1]);
      CallKeepsDriftNear(h.states[0], h.states[k - 1], k - 1, i, h.picks[k - 1], h.states[k - 1 + 1]);
    }
  }

  /** A floor under the current weights stays while effective weights climb, and so does the sum. */
  lemma CallKeepsFloor(ns: seq<NodeState>, m: int, after: seq<NodeState>, lo: int)
    requires IsCall(ns, m, after) && AllAlive(ns) && Climbing(ns) && Floor(Currents(ns), Weights(ns), lo)
    ensures Floor(Currents(after), Weights(after), lo) && Sum(Currents(after)) == Sum(Currents(ns))
  {
    var rest := after[m := after[m].(uses := ns[m].uses)];
    CallKeepsClimbing(ns, m, after);
    PassConservesSum(ns, m, rest);
    assert Currents(rest) == Currents(after);
    PickedAboveFloor(ns, m, lo);
    forall i | 0 <= i < |ns| ensures after[i].current >= lo {
      CallOnNode(ns, m, after, i);
      assert Currents(ns)[i] >= lo;
    }
  }

  /** The largest raised weight is at least the average, so what it keeps after paying is above the floor. */
  lemma PickedAboveFloor(ns: seq<NodeState>, m: int, lo: int)
    requires AllAlive(ns) && Climbing(ns) && Floor(Currents(ns), Weights(ns), lo)
    requires IsFirstMax(Currents(RaisedAll(ns)), m)
    ensures ns[m].current + ns[m].effective - Sum(Effectives(ns)) >= lo
  {
    var raised := Added(Currents(ns), Effectives(ns));
    assert Currents(RaisedAll(ns)) == raised;
    SumAdded(Currents(ns), Effectives(ns));
    SumAtMost(raised, raised[m]);
    ClimbIsMissing(ns);
    SumAtLeast(Gaps(ns), 0);
    KeepsAbove(|ns|, Sum(Currents(ns)), Sum(Weights(ns)), Sum(Effectives(ns)), lo, raised[m]);
  }

  lemma KeepsAbove(n: int, sum: int, total: int, paid: int, lo: int, top: int)
    requires n >= 1 && paid <= total && n * (lo + total) <= sum + total && sum + paid <= n * top
    ensures top - paid >= lo
  {
    assert (n - 1) * (total - paid) >= 0;
    assert (n - 1) * (total - paid) == n * total - total - n * paid + paid;
    assert n * (lo + total) == n * lo + n * total && n * (top - paid) == n * top - n * paid;
    LeqFromProduct(n, lo, top - paid);
  }

  lemma {:induction false} CallsKeepFloor(h: Calls, k: nat, lo: int)
    requires IsCalls(h) && k <= |h.picks| && Climbing(h.states[0])
    requires Floor(Currents(h.states[0]), Weights(h.states[0]), lo)
    ensures |h.states[k]| == |h.states[0]| && Climbing(h.states[k])
    ensures Floor(Currents(h.states[k]), Weights(h.states[k]), lo)
    ensures Sum(Currents(h.states[k])) == Sum(Currents(h.states[0]))
  {
    if k > 0 {
      CallsKeepFloor(h, k - 1, lo);
      assert AllAlive(h.states[k - 1]) && IsCall(h.states[k - 1], h.picks[k - 1], h.states[k - 1 + 1]);
      CallKeepsFloor(h.states[k - 1], h.picks[k - 1], h.states[k - 1 + 1], lo);
      CallKeepsClimbing(h.states[k - 1], h.picks[k - 1], h.states[k - 1 + 1]);
    }
  }

  /**
   With all nodes alive, from any current weights and while effective weights still climb: however many
   calls there are, the uses of a node, times the sum of the weights, stay within fixed bounds of its
   weight times the number of calls.
   */
  lemma UsesStayFair(h: Calls, k: nat, i: int, lo: int)
    requires IsCalls(h) && k <= |h.picks| && 0 <= i < |h.states[0]| && Climbing(h.states[0])
    requires Floor(Currents(h.states[0]), Weights(h.states[0]), lo)
    ensures |h.states[k]| == |h.states[0]|
    ensures var s := h.states[0];
      var off := Sum(Weights(s)) * (h.states[k][i].uses - s[i].uses) - k * s[i].weight;
      && s[i].current - Debt(s[i]) - Sum(Currents(s)) + (|s| - 1) * lo <= off
      && off <= s[i].current + Sum(Debts(s)) - lo
  {
    var s, t := h.states[0], h.states[k];
    CallsKeepFloor(h, k, lo);
    DriftStaysNear(h, k, i);
    assert Weights(t)[i] == t[i].weight == s[i].weight;
    OneAtMost(Currents(t), i, lo);
    TriangleNotNegative(t[i].weight - t[i].effective);
    DebtsNotNegative(t);
  }

  lemma DebtsNotNegative(ns: seq<NodeState>)
    ensures Sum(Debts(ns)) >= 0
  {
    forall i | 0 <= i < |ns| ensures Debts(ns)[i] >= 0 {
      TriangleNotNegative(ns[i].weight - ns[i].effective);
    }
    SumAtLeast(Debts(ns), 0);
  }

  /** The listing's own start: current weights at the weights, effective weights at zero. */
  predicate Fresh(ns: seq<NodeState>) {
    forall i :: 0 <= i < |ns| ==> ns[i].current == ns[i].weight > 0 && ns[i].effective == 0
  }

  /** And so it is from the listing's own start. */
  lemma UsesStayFairFromListing(h: Calls, k: nat, i: int)
    requires IsCalls(h) && k <= |h.picks| && 0 <= i < |h.states[0]| && Fresh(h.states[0])
    ensures |h.states[k]| == |h.states[0]|
    ensures var s := h.states[0];
      var w := Sum(Weights(s));
      var off := w * (h.states[k][i].uses - s[i].uses) - k * s[i].weight;
      s[i].weight - Debt(s[i]) - |s| * w <= off <= s[i].weight + Sum(Debts(s)) + w
  {
    var s := h.states[0];
    var w := Sum(Weights(s));
    assert Currents(s) == Weights(s);
    SumAtLeast(Weights(s), 0);
    UsesStayFair(h, k, i, -w);
    assert (|s| - 1) * (-w) == w - |s| * w;
  }
}
