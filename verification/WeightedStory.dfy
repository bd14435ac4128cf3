/** Runs of smooth weighted round robin in which the search for a node that is alive never ends. */
module WeightedStory {
  import opened GoArith
  import opened RoundRobin
  import opened WeightedPass
  import opened NextEnds
  import opened WeightedRoundRobin

  lemma SumOfThree(s: seq<int>)
    requires |s| == 3
    ensures Sum(s) == s[0] + s[1] + s[2]
  {
    assert s[..2][..1] == s[..1] && s[..1][..0] == [];
    assert Sum(s[..1]) == s[0];
    assert Sum(s[..2]) == Sum(s[..1]) + s[1];
  }

  /** A pass over three nodes, spelled out. */
  lemma PassOfThree(ns: seq<NodeState>, m: int, after: seq<NodeState>)
    requires |ns| == 3 && |after| == 3 && 0 <= m < 3
    requires forall i :: 0 <= i < 3 ==>
      var (top, n) := (Raised(ns[m]).current, Raised(ns[i]).current);
      n <= top && (i < m ==> n < top)
    requires var total := ns[0].effective + ns[1].effective + ns[2].effective;
      forall i :: 0 <= i < 3 ==>
        after[i] == Raised(ns[i]).(current := Raised(ns[i]).current - (if i == m then total else 0))
    ensures IsPass(ns, m, after)
  {
    SumOfThree(Effectives(ns));
    var r := RaisedAll(ns);
    assert after == r[m := r[m].(current := r[m].current - Sum(Effectives(ns)))];
  }

  function Died(ns: seq<NodeState>, m: int): seq<NodeState>
    requires 0 <= m < |ns|
  {
    ns[m := ns[m].(dead := true)]
  }

  /** Three nodes of weights 1, 1 and 3 in the listing's own start, and after each of the next passes. */
  function Story(k: nat): (ns: seq<NodeState>)
    ensures |ns| == 3
  {
    if k == 0 then [NodeState(1, 0, 1, false, 0), NodeState(1, 0, 1, false, 0), NodeState(3, 0, 3, false, 0)]
    else if k == 1 then [NodeState(1, 1, 1, false, 0), NodeState(1, 1, 1, false, 0), NodeState(3, 1, 3, false, 1)]
    else if k == 2 then [NodeState(2, 1, 1, false, 0), NodeState(2, 1, 1, false, 0), NodeState(1, 0, 3, true, 1)]
    else if k == 3 then [NodeState(1, 1, 1, false, 0), NodeState(3, 1, 1, false, 0), NodeState(1, -1, 3, true, 1)]
    else if k == 4 then [NodeState(2, 1, 1, false, 2), NodeState(3, 1, 1, false, 1), NodeState(0, -2, 3, true, 1)]
    else [NodeState(3, 1, 1, false, 2), NodeState(4, 1, 1, false, 2), NodeState(-2, -3, 3, true, 1)]
  }

  /** The first call picks the third node; when that dies, the second call passes over it to the first. */
  lemma StoryBegins()
    ensures IsCall(Story(0), 2, Story(1))
    ensures IsPass(Died(Story(1), 2), 2, Story(2)) && IsPass(Story(2), 0, Story(3))
  {
    PassOfThree(Story(0), 2, Story(1)[2 := Story(1)[2].(uses := 0)]);
    PassOfThree(Died(Story(1), 2), 2, Story(2));
    PassOfThree(Story(2), 0, Story(3));
  }

  /** The next two calls pick the second node. */
  lemma StoryGoesOn()
    ensures IsCall(Story(3)[0 := Story(3)[0].(uses := 2)], 1, Story(4)) && IsCall(Story(4), 1, Story(5))
  {
    PassOfThree(Story(3)[0 := Story(3)[0].(uses := 2)], 1, Story(4)[1 := Story(4)[1].(uses := 0)]);
    PassOfThree(Story(4), 1, Story(5)[1 := Story(5)[1].(uses := 1)]);
  }

  /** When that dies too, the next call of Next never ends, with the first node alive and well. */
  lemma StuckWithOneAlive()
    ensures !Ends(Died(Story(5), 1)) && !Story(5)[0].dead
  {
    var ns := Died(Story(5), 1);
    SumOfThree(Caps(ns)[1 := 0]);
    assert Doomed(ns, 1, 2, 1, -1);
    forall k: nat ensures !EndsIn(ns, k) {
      DoomedNeverEnds(ns, 1, 2, 1, -1, k);
    }
  }

  /** The node that keeps being picked may itself be below its weight and falling. */
  lemma StuckBelowWeight()
    ensures !Ends([NodeState(4, 3, 4, true, 1), NodeState(3, 1, 1, false, 0), NodeState(3, -1, 5, true, 1)])
  {
    var ns := [NodeState(4, 3, 4, true, 1), NodeState(3, 1, 1, false, 0), NodeState(3, -1, 5, true, 1)];
    SumOfThree(Caps(ns)[0 := 0]);
    assert Triangle(2) == 3;
    assert Doomed(ns, 0, 2, 1, 2);
    forall k: nat ensures !EndsIn(ns, k) {
      DoomedNeverEnds(ns, 0, 2, 1, 2, k);
    }
  }
}
