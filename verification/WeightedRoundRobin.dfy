/** Smooth weighted round robin: the nodes, updated in place, and how often each is used. */
module WeightedRoundRobin {
  import opened GoArith
  import opened RoundRobin
  import opened WeightedPass
  import opened NextEnds

  lemma FirstMaxNext(s: seq<int>, i: int, m: int, best: int)
    requires 0 <= i < |s|
    requires if i == 0 then m == -1 else IsFirstMax(s[..i], m)
    requires best == if m == -1 || s[i] > s[m] then i else m
    ensures IsFirstMax(s[..i + 1], best)
  {
    assert forall j :: 0 <= j < i ==> s[..i][j] == s[j] == s[..i + 1][j];
  }

  ghost predicate AllAlive(ns: seq<NodeState>) {
    forall i :: 0 <= i < |ns| ==> !ns[i].dead
  }

  /** One call that finds a node alive at once: a pass, and one more use of the node. */
  ghost predicate IsCall(ns: seq<NodeState>, m: int, after: seq<NodeState>) {
    && 0 <= m < |after| == |ns| && after[m].uses == ns[m].uses + 1
    && IsPass(ns, m, after[m := after[m].(uses := ns[m].uses)])
  }

  /** The nodes, which the balancer updates in place. */
  class Config {
    const nodes: array<NodeState>

    constructor (nodes: array<NodeState>)
      ensures this.nodes == nodes
    {
      this.nodes := nodes;
    }

    /** Raises every node; returns the first with the largest current weight, and what it has to pay. */
    method RaiseNodes() returns (m: int, total: int)
      requires nodes.Length > 0
      modifies nodes
      ensures nodes[..] == RaisedAll(old(nodes[..]))
      ensures IsFirstMax(Currents(RaisedAll(old(nodes[..]))), m)
      ensures total == Sum(Effectives(old(nodes[..])))
    {
      ghost var effectives := Effectives(nodes[..]);
      ghost var currents := Currents(RaisedAll(nodes[..]));
      total := 0;
      m := -1;
      for i := 0 to nodes.Length
        invariant forall j :: 0 <= j < i ==> nodes[j] == Raised(old(nodes[j]))
        invariant forall j :: i <= j < nodes.Length ==> nodes[j] == old(nodes[j])
        invariant total == Sum(effectives[..i])
        invariant if i == 0 then m == -1 else IsFirstMax(currents[..i], m)
      {
        var n := nodes[i];
        total := total + n.effective;
        assert effectives[..i + 1][..i] == effectives[..i];
        n := n.(current := n.current + n.effective);
        if n.effective < n.weight {
          if n.dead {
            n := n.(effective := n.effective - 1);
          } else {
            n := n.(effective := n.effective + 1);
          }
        }
        nodes[i] := n;
        ghost var m0 := m;
        if m == -1 || nodes[i].current > nodes[m].current {
          m := i;
        }
        FirstMaxNext(currents, i, m0, m);
      }
      assert effectives[..nodes.Length] == effectives;
      assert currents[..nodes.Length] == currents;
    }

    /** One pass over the nodes; the index of the node it picks, or -1 when there is none. */
    method Pass() returns (m: int)
      modifies nodes
      ensures nodes.Length == 0 <==> m == -1
      ensures nodes.Length > 0 ==> IsPass(old(nodes[..]), m, nodes[..])
    {
      if nodes.Length == 0 {
        return -1;
      }
      var total: int;
      m, total := RaiseNodes();
      nodes[m] := nodes[m].(current := nodes[m].current - total);
    }

    /**
     Picks a node that is alive, passing over dead ones. Passing over makes the use of the node that is
     found count once more each time. Unless all are alive, the search has to be one that ends.
     */
    method Next() returns (m: int, ghost h: Calls)
      requires nodes.Length > 0 ==> AllAlive(nodes[..]) || (Sound(nodes[..]) && CanEnd(nodes[..]))
      modifies nodes
      ensures nodes.Length == 0 <==> m == -1
      ensures nodes.Length > 0 ==> IsNext(old(nodes[..]), m, h, nodes[..])
      decreases if nodes.Length > 0 && Ends(nodes[..]) then Distance(nodes[..]) else 0
    {
      if nodes.Length == 0 {
        h := Calls([], []);
        return -1, h;
      }
      ghost var before := nodes[..];
      m := Pass();
      ghost var mid, first := nodes[..], m;
      if nodes[m].dead {
        StillEnds(before, m, mid);
        m, h := Next();
        ghost var after := nodes[..];
        nodes[m] := nodes[m].(uses := nodes[m].uses + 1);
        NextAfterDead(before, first, mid, m, h, after);
        h := Prepended(before, first, h);
      } else {
        nodes[m] := nodes[m].(uses := nodes[m].uses + 1);
        h := Calls([before, mid], [m]);
        NextAtOnce(before, m, mid);
      }
    }
  }

  lemma StillEnds(before: seq<NodeState>, m: int, mid: seq<NodeState>)
    requires AllAlive(before) || (Sound(before) && CanEnd(before))
    requires IsPass(before, m, mid) && mid[m].dead
    ensures Sound(mid) && CanEnd(mid) && Ends(before) && Ends(mid) && Distance(mid) < Distance(before)
  {
    PassOnNode(before, m, mid, m);
    CanEndEnds(before);
    PassKeepsSound(before, m, mid);
    PassKeepsCanEnd(before, m, mid);
    DistanceFalls(before, m, mid);
  }

  /** All of the passes but the last picked nodes that are dead. */
  ghost predicate PassesOverDead(ns: seq<NodeState>, h: Calls) {
    forall k :: 0 <= k < |h.picks| - 1 ==> 0 <= h.picks[k] < |ns| && ns[h.picks[k]].dead
  }

  /** A node counts more uses, and nothing else changes. */
  function Used(ns: seq<NodeState>, m: int, times: int): seq<NodeState>
    requires 0 <= m < |ns|
  {
    ns[m := ns[m].(uses := ns[m].uses + times)]
  }

  /** What a call of Next does: passes that pick dead nodes, then one that picks node `m`, which is alive. */
  ghost predicate IsNext(before: seq<NodeState>, m: int, h: Calls, after: seq<NodeState>) {
    var n := |h.picks|;
    && IsPasses(h) && n > 0 && h.states[0] == before && |h.states[n]| == |before|
    && PassesOverDead(before, h)
    && 0 <= m < |before| && m == h.picks[n - 1] && !before[m].dead
    && after == Used(h.states[n], m, n)
  }

  function Prepended(ns: seq<NodeState>, m: int, h: Calls): Calls {
    Calls([ns] + h.states, [m] + h.picks)
  }

  lemma NextAtOnce(before: seq<NodeState>, m: int, mid: seq<NodeState>)
    requires IsPass(before, m, mid) && !mid[m].dead
    ensures IsNext(before, m, Calls([before, mid], [m]), Used(mid, m, 1))
  {
    PassOnNode(before, m, mid, m);
  }

  lemma PrependedIsPasses(ns: seq<NodeState>, m: int, h: Calls)
    requires IsPasses(h) && IsPass(ns, m, h.states[0])
    ensures IsPasses(Prepended(ns, m, h))
  {
    var g := Prepended(ns, m, h);
    forall k | 0 <= k < |g.picks| ensures IsPass(g.states[k], g.picks[k], g.states[k + 1]) {
      if k > 0 {
        assert IsPass(h.states[k - 1], h.picks[k - 1], h.states[k - 1 + 1]);
      }
    }
  }

  lemma PrependedPassesDead(before: seq<NodeState>, m: int, mid: seq<NodeState>, h: Calls)
    requires |mid| == |before| && forall i :: 0 <= i < |mid| ==> mid[i].dead == before[i].dead
    requires 0 <= m < |before| && before[m].dead && PassesOverDead(mid, h)
    ensures PassesOverDead(before, Prepended(before, m, h))
  {
    var g := Prepended(before, m, h);
    forall k | 0 <= k < |g.picks| - 1 ensures 0 <= g.picks[k] < |before| && before[g.picks[k]].dead {
      if k > 0 {
        assert g.picks[k] == h.picks[k - 1];
      }
    }
  }

  lemma NextAfterDead(before: seq<NodeState>, m: int, mid: seq<NodeState>, m': int, h: Calls, after: seq<NodeState>)
    requires IsPass(before, m, mid) && mid[m].dead && IsNext(mid, m', h, after)
    ensures IsNext(before, m', Prepended(before, m, h), Used(after, m', 1))
  {
    PassOnNode(before, m, mid, m);
    PassKeepsDead(before, m, mid);
    PrependedIsPasses(before, m, h);
    PrependedPassesDead(before, m, mid, h);
    var n := |h.picks|;
    assert Prepended(before, m, h).states[n + 1] == h.states[n];
  }

  /** When all are alive the call is a single pass. */
  lemma NextWhenAllAlive(before: seq<NodeState>, m: int, h: Calls, after: seq<NodeState>)
    requires AllAlive(before) && IsNext(before, m, h, after)
    ensures IsCall(before, m, after)
  {
    var first := h.picks[0];
    assert IsPass(h.states[0], h.picks[0], h.states[1]);
    PassOnNode(before, m, h.states[1], m);
    assert after[m := after[m].(uses := before[m].uses)] == h.states[1];
  }
}
