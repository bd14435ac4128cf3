/** One pass of smooth weighted round robin over nodes of any effective weights, some of them dead. */
module WeightedPass {
  import opened GoArith
  import opened RoundRobin

  datatype NodeState = NodeState(current: int, effective: int, weight: int, dead: bool, uses: int)

  /** What a pass over the nodes does to each of them. */
  function Raised(n: NodeState): NodeState {
    n.(current := n.current + n.effective,
       effective := if n.effective >= n.weight then n.effective
                    else if n.dead then n.effective - 1 else n.effective + 1)
  }

  function RaisedAll(ns: seq<NodeState>): (r: seq<NodeState>)
    ensures |r| == |ns| && forall i :: 0 <= i < |ns| ==> r[i] == Raised(ns[i])
  {
    seq(|ns|, i requires 0 <= i < |ns| => Raised(ns[i]))
  }

  function Currents(ns: seq<NodeState>): (r: seq<int>)
    ensures |r| == |ns| && forall i :: 0 <= i < |ns| ==> r[i] == ns[i].current
  {
    seq(|ns|, i requires 0 <= i < |ns| => ns[i].current)
  }

  function Effectives(ns: seq<NodeState>): (r: seq<int>)
    ensures |r| == |ns| && forall i :: 0 <= i < |ns| ==> r[i] == ns[i].effective
  {
    seq(|ns|, i requires 0 <= i < |ns| => ns[i].effective)
  }

  /** One pass: all nodes are raised, the first with the largest current weight pays all effective weights. */
  ghost predicate IsPass(ns: seq<NodeState>, m: int, after: seq<NodeState>) {
    var r := RaisedAll(ns);
    && IsFirstMax(Currents(r), m)
    && after == r[m := r[m].(current := r[m].current - Sum(Effectives(ns)))]
  }

  lemma PassOnCurrents(ns: seq<NodeState>, m: int, after: seq<NodeState>)
    requires IsPass(ns, m, after)
    ensures |after| == |ns| && IsFirstMax(Added(Currents(ns), Effectives(ns)), m)
    ensures var (c, e) := (Currents(ns), Effectives(ns));
      Currents(after) == Added(c, e)[m := c[m] + e[m] - Sum(e)]
  {
    assert Currents(RaisedAll(ns)) == Added(Currents(ns), Effectives(ns));
  }

  /** Every pass, whatever the effective weights and whoever is dead, conserves the sum of current weights. */
  lemma PassConservesSum(ns: seq<NodeState>, m: int, after: seq<NodeState>)
    requires IsPass(ns, m, after)
    ensures Sum(Currents(after)) == Sum(Currents(ns))
  {
    PassOnCurrents(ns, m, after);
    PaidFromAdded(Currents(ns), Effectives(ns), m);
  }

  /** All effective weights have reached the weights. */
  ghost predicate Settled(ns: seq<NodeState>) {
    forall i :: 0 <= i < |ns| ==> ns[i].effective == ns[i].weight > 0
  }

  /** A pass over settled nodes is a turn of the current weights and nothing else, even for dead nodes. */
  lemma SettledPassIsTurn(ns: seq<NodeState>, m: int, after: seq<NodeState>)
    requires Settled(ns) && IsPass(ns, m, after)
    ensures IsTurn(Currents(ns), Effectives(ns), m, Currents(after))
    ensures Settled(after) && Effectives(after) == Effectives(ns)
    ensures forall i :: 0 <= i < |ns| ==> after[i] == ns[i].(current := after[i].current)
  {
    PassOnCurrents(ns, m, after);
    assert Effectives(after) == Effectives(ns);
  }

  function Weights(ns: seq<NodeState>): (r: seq<int>)
    ensures |r| == |ns| && forall i :: 0 <= i < |ns| ==> r[i] == ns[i].weight
  {
    seq(|ns|, i requires 0 <= i < |ns| => ns[i].weight)
  }

  /** What a pass does to one node. */
  lemma PassOnNode(ns: seq<NodeState>, m: int, after: seq<NodeState>, i: int)
    requires IsPass(ns, m, after) && 0 <= i < |ns|
    ensures |after| == |ns| && 0 <= m < |ns|
    ensures after[i] == Raised(ns[i]).(current :=
      ns[i].current + ns[i].effective - (if i == m then Sum(Effectives(ns)) else 0))
    ensures Raised(ns[i]).current <= Raised(ns[m]).current
    ensures i < m ==> Raised(ns[i]).current < Raised(ns[m]).current
  {
    var r := RaisedAll(ns);
    assert Currents(r)[i] == r[i].current && Currents(r)[m] == r[m].current;
  }

  lemma {:induction false} FirstMaxOf(s: seq<int>) returns (m: int)
    requires s != []
    ensures IsFirstMax(s, m)
  {
    m := 0;
    for i := 1 to |s|
      invariant 0 <= m < i
      invariant forall j :: 0 <= j < i ==> s[j] <= s[m]
      invariant forall j :: 0 <= j < m ==> s[j] < s[m]
    {
      if s[i] > s[m] {
        m := i;
      }
    }
  }

  /** There is a pass from every state with nodes, and only one. */
  lemma SomePass(ns: seq<NodeState>) returns (m: int, after: seq<NodeState>)
    requires ns != []
    ensures IsPass(ns, m, after)
  {
    var r := RaisedAll(ns);
    m := FirstMaxOf(Currents(r));
    after := r[m := r[m].(current := r[m].current - Sum(Effectives(ns)))];
  }

  lemma PassUnique(ns: seq<NodeState>, m: int, after: seq<NodeState>, m': int, after': seq<NodeState>)
    requires IsPass(ns, m, after) && IsPass(ns, m', after')
    ensures m == m' && after == after'
  {
  }

  /** Positive weights, which no effective weight exceeds: so it is from the listing's start on. */
  predicate Sound(ns: seq<NodeState>) {
    forall i :: 0 <= i < |ns| ==> ns[i].weight > 0 && ns[i].effective <= ns[i].weight
  }

  lemma PassKeepsSound(ns: seq<NodeState>, m: int, after: seq<NodeState>)
    requires IsPass(ns, m, after) && Sound(ns)
    ensures Sound(after)
  {
    forall i | 0 <= i < |ns| ensures after[i].weight > 0 && after[i].effective <= after[i].weight {
      PassOnNode(ns, m, after, i);
    }
  }

  /** The nodes before and after each of some passes or calls, and whom each picked. */
  datatype Calls = Calls(states: seq<seq<NodeState>>, picks: seq<int>)

  /** Passes with nothing in between, as when each finds a dead node. */
  ghost predicate IsPasses(h: Calls) {
    && |h.states| == |h.picks| + 1
    && forall k :: 0 <= k < |h.picks| ==> IsPass(h.states[k], h.picks[k], h.states[k + 1])
  }
}
