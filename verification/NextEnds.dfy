/** When the search of smooth weighted round robin for a node that is alive comes to an end. */
module NextEnds {
  import opened GoArith
  import opened RoundRobin
  import opened WeightedPass

  /** The search finds a node that is alive after `k` passes that pick dead ones. */
  ghost predicate EndsIn(ns: seq<NodeState>, k: nat)
    decreases k, 1
  {
    exists m, after :: EndsVia(ns, k, m, after)
  }

  /** The next pass is the last one, or leads to where the search ends one pass earlier. */
  ghost predicate EndsVia(ns: seq<NodeState>, k: nat, m: int, after: seq<NodeState>)
    decreases k, 0
  {
    IsPass(ns, m, after) && if ns[m].dead then k > 0 && EndsIn(after, k - 1) else k == 0
  }

  ghost predicate Ends(ns: seq<NodeState>) {
    exists k: nat :: EndsIn(ns, k)
  }

  lemma EndsNow(ns: seq<NodeState>, m: int, after: seq<NodeState>)
    requires IsPass(ns, m, after) && !ns[m].dead
    ensures EndsIn(ns, 0)
  {
    assert EndsVia(ns, 0, m, after);
  }

  lemma EndsLater(ns: seq<NodeState>, m: int, after: seq<NodeState>, k: nat)
    requires IsPass(ns, m, after) && ns[m].dead && EndsIn(after, k)
    ensures EndsIn(ns, k + 1)
  {
    assert EndsVia(ns, k + 1, m, after);
  }

  /** Passes leave no choice. */
  lemma EndsAfterPass(ns: seq<NodeState>, m: int, after: seq<NodeState>, k: nat)
    requires IsPass(ns, m, after) && EndsIn(ns, k)
    ensures EndsVia(ns, k, m, after)
  {
    var m', after' :| EndsVia(ns, k, m', after');
    PassUnique(ns, m, after, m', after');
  }

  lemma {:induction false} EndsOnce(ns: seq<NodeState>, k: nat, l: nat)
    requires EndsIn(ns, k) && EndsIn(ns, l)
    ensures k == l
    decreases k
  {
    var m, after :| EndsVia(ns, k, m, after);
    EndsAfterPass(ns, m, after, l);
    if k > 0 && l > 0 && ns[m].dead {
      EndsOnce(after, k - 1, l - 1);
    }
  }

  /** How many passes the search still has to make before the last one. */
  ghost function Distance(ns: seq<NodeState>): nat
    requires Ends(ns)
  {
    var k: nat :| EndsIn(ns, k); k
  }

  lemma DistanceFalls(ns: seq<NodeState>, m: int, after: seq<NodeState>)
    requires IsPass(ns, m, after) && ns[m].dead && Ends(ns)
    ensures Ends(after) && Distance(after) < Distance(ns)
  {
    EndsAfterPass(ns, m, after, Distance(ns));
    EndsOnce(after, Distance(after), Distance(ns) - 1);
  }

  /** A node whose effective weight falls with every pass. */
  predicate Falling(n: NodeState) {
    n.dead && n.effective < n.weight
  }

  ghost predicate SomeAlive(ns: seq<NodeState>) {
    exists i :: 0 <= i < |ns| && !ns[i].dead
  }

  ghost predicate AtMostOneDead(ns: seq<NodeState>) {
    forall i, j :: 0 <= i < j < |ns| ==> !(ns[i].dead && ns[j].dead)
  }

  ghost predicate NoneFalling(ns: seq<NodeState>) {
    forall i :: 0 <= i < |ns| ==> !Falling(ns[i])
  }

  /** Some node is alive, and either no other two are dead or no dead one is below its weight. */
  ghost predicate CanEnd(ns: seq<NodeState>) {
    SomeAlive(ns) && (AtMostOneDead(ns) || NoneFalling(ns))
  }

  lemma PassKeepsDead(ns: seq<NodeState>, m: int, after: seq<NodeState>)
    requires IsPass(ns, m, after)
    ensures |after| == |ns|
    ensures forall i :: 0 <= i < |ns| ==> after[i].dead == ns[i].dead && after[i].weight == ns[i].weight
  {
    forall i | 0 <= i < |ns| ensures after[i].dead == ns[i].dead && after[i].weight == ns[i].weight {
      PassOnNode(ns, m, after, i);
    }
  }

  lemma PassKeepsNoneFalling(ns: seq<NodeState>, m: int, after: seq<NodeState>)
    requires IsPass(ns, m, after) && Sound(ns) && NoneFalling(ns)
    ensures NoneFalling(after)
  {
    forall i | 0 <= i < |after| ensures !Falling(after[i]) {
      PassOnNode(ns, m, after, i);
      assert !Falling(ns[i]);
    }
  }

  lemma PassKeepsCanEnd(ns: seq<NodeState>, m: int, after: seq<NodeState>)
    requires IsPass(ns, m, after) && Sound(ns) && CanEnd(ns)
    ensures CanEnd(after)
  {
    PassKeepsDead(ns, m, after);
    var i :| 0 <= i < |ns| && !ns[i].dead;
    assert !after[i].dead;
    if NoneFalling(ns) {
      PassKeepsNoneFalling(ns, m, after);
    }
  }

  // ----- the live nodes climb to their weights first

  /** How far a node that is alive is below its weight. */
  function Gap(n: NodeState): int {
    if n.dead then 0 else n.weight - n.effective
  }

  function Gaps(ns: seq<NodeState>): (r: seq<int>)
    ensures |r| == |ns| && forall i :: 0 <= i < |ns| ==> r[i] == Gap(ns[i])
  {
    seq(|ns|, i requires 0 <= i < |ns| => Gap(ns[i]))
  }

  function Climb(ns: seq<NodeState>): int {
    Sum(Gaps(ns))
  }

  lemma PartOfSum(s: seq<int>, i: int)
    requires 0 <= i < |s| && forall j :: 0 <= j < |s| ==> s[j] >= 0
    ensures 0 <= s[i] <= Sum(s)
  {
    SumUpdate(s, i, 0);
    SumAtLeast(s[i := 0], 0);
  }

  /** A live node below its weight, if any node has far to climb. */
  lemma SomebodyClimbs(s: seq<int>) returns (i: int)
    requires Sum(s) > 0
    ensures 0 <= i < |s| && s[i] > 0
  {
    if forall j :: 0 <= j < |s| ==> s[j] <= 0 {
      SumAtMost(s, 0);
    }
    i :| 0 <= i < |s| && s[i] > 0;
  }

  lemma GapsFall(ns: seq<NodeState>, m: int, after: seq<NodeState>)
    requires IsPass(ns, m, after) && Sound(ns)
    ensures |after| == |ns|
    ensures forall i :: 0 <= i < |ns| ==> 0 <= Gaps(after)[i] <= Gaps(ns)[i]
    ensures forall i :: 0 <= i < |ns| && Gaps(ns)[i] > 0 ==> Gaps(after)[i] == Gaps(ns)[i] - 1
  {
    PassKeepsDead(ns, m, after);
    forall i | 0 <= i < |ns|
      ensures 0 <= Gaps(after)[i] <= Gaps(ns)[i] && (Gaps(ns)[i] > 0 ==> Gaps(after)[i] == Gaps(ns)[i] - 1)
    {
      PassOnNode(ns, m, after, i);
    }
  }

  /** Of two sequences, one nowhere above the other and somewhere below it. */
  lemma SumLess(n: seq<int>, w: seq<int>, i: int)
    requires |n| == |w| && 0 <= i < |n| && n[i] < w[i] && forall j :: 0 <= j < |n| ==> n[j] <= w[j]
    ensures Sum(n) < Sum(w)
  {
    SumUpdate(w, i, w[i] - 1);
    SumLeq(n, w[i := w[i] - 1]);
  }

  lemma ClimbFalls(ns: seq<NodeState>, m: int, after: seq<NodeState>)
    requires IsPass(ns, m, after) && Sound(ns)
    ensures 0 <= Climb(after) <= Climb(ns)
    ensures Climb(ns) > 0 ==> Climb(after) < Climb(ns)
  {
    GapsFall(ns, m, after);
    SumAtLeast(Gaps(after), 0);
    SumLeq(Gaps(after), Gaps(ns));
    if Climb(ns) > 0 {
      var i := SomebodyClimbs(Gaps(ns));
      SumLess(Gaps(after), Gaps(ns), i);
    }
  }

  lemma NobodyClimbs(ns: seq<NodeState>, i: int)
    requires Sound(ns) && Climb(ns) <= 0 && 0 <= i < |ns| && !ns[i].dead
    ensures ns[i].effective == ns[i].weight
  {
    PartOfSum(Gaps(ns), i);
  }

  // ----- when no dead node is below its weight

  lemma SettledAtLast(ns: seq<NodeState>)
    requires Sound(ns) && NoneFalling(ns) && Climb(ns) <= 0
    ensures Settled(ns)
  {
    forall i | 0 <= i < |ns| ensures ns[i].effective == ns[i].weight > 0 {
      if ns[i].dead {
        assert !Falling(ns[i]);
      } else {
        NobodyClimbs(ns, i);
      }
    }
  }

  /** How far the current weight of a node is from the highest it can get to. */
  function Slack(c: seq<int>, lo: int, i: int): int
    requires 0 <= i < |c|
  {
    Sum(c) - (|c| - 1) * lo - c[i]
  }

  lemma SlackShrinks(c: seq<int>, w: seq<int>, lo: int, m: int, t: seq<int>, i: int)
    requires IsTurn(c, w, m, t) && Positive(w) && Floor(c, w, lo) && Floor(t, w, lo) && 0 <= i < |c| && i != m
    ensures 0 <= Slack(t, lo, i) < Slack(c, lo, i)
  {
    TurnConservesSum(c, w, m, t);
    OneAtMost(t, i, lo);
  }

  /** Passing over a dead node once all have settled brings a live one nearer to its turn. */
  lemma PassedOver(ns: seq<NodeState>, m: int, after: seq<NodeState>, lo: int, alive: int)
    requires Settled(ns) && IsPass(ns, m, after) && ns[m].dead && 0 <= alive < |ns| && !ns[alive].dead
    requires Floor(Currents(ns), Effectives(ns), lo)
    ensures |after| == |ns| && Floor(Currents(after), Effectives(after), lo)
    ensures 0 <= Slack(Currents(after), lo, alive) < Slack(Currents(ns), lo, alive)
  {
    SettledPassIsTurn(ns, m, after);
    TurnKeepsFloor(Currents(ns), Effectives(ns), lo, m, Currents(after));
    SlackShrinks(Currents(ns), Effectives(ns), lo, m, Currents(after), alive);
  }

  /** A floor for the nodes once they have settled. */
  ghost predicate FloorWhenSettled(ns: seq<NodeState>, lo: int) {
    Climb(ns) <= 0 ==> Floor(Currents(ns), Effectives(ns), lo)
  }

  lemma SomeFloor(ns: seq<NodeState>) returns (lo: int)
    requires Sound(ns) && NoneFalling(ns) && ns != []
    ensures FloorWhenSettled(ns, lo)
  {
    lo := 0;
    if Climb(ns) <= 0 {
      SettledAtLast(ns);
      lo := FloorExists(Currents(ns), Effectives(ns));
    }
  }

  lemma EndsWithNoneFalling(ns: seq<NodeState>, alive: int, lo: int) returns (k: nat)
    requires Sound(ns) && NoneFalling(ns) && 0 <= alive < |ns| && !ns[alive].dead && FloorWhenSettled(ns, lo)
    ensures EndsIn(ns, k)
    decreases Climb(ns), if Climb(ns) <= 0 then Slack(Currents(ns), lo, alive) else 0
  {
    var m, after := SomePass(ns);
    if !ns[m].dead {
      EndsNow(ns, m, after);
      return 0;
    }
    ClimbFalls(ns, m, after);
    PassKeepsSound(ns, m, after);
    PassKeepsDead(ns, m, after);
    PassKeepsNoneFalling(ns, m, after);
    var lo' := lo;
    if Climb(ns) <= 0 {
      SettledAtLast(ns);
      PassedOver(ns, m, after, lo, alive);
    } else {
      lo' := SomeFloor(after);
    }
    k := EndsWithNoneFalling(after, alive, lo');
    EndsLater(ns, m, after, k);
    k := k + 1;
  }

  // ----- when only one node is dead

  /** How far a node is ahead of another one when both have been raised. */
  function Lead(ns: seq<NodeState>, p: int, j: int): int
    requires 0 <= p < |ns| && 0 <= j < |ns|
  {
    Raised(ns[p]).current - Raised(ns[j]).current
  }

  ghost predicate OnlyDead(ns: seq<NodeState>, d: int) {
    0 <= d < |ns| && forall i :: 0 <= i < |ns| && i != d ==> !ns[i].dead
  }

  lemma OnlyDeadFallsBack(ns: seq<NodeState>, d: int, after: seq<NodeState>, alive: int)
    requires Sound(ns) && OnlyDead(ns, d) && ns[d].dead && IsPass(ns, d, after) && Climb(ns) <= 0
    requires 0 <= alive < |ns| && !ns[alive].dead && alive != d
    ensures |after| == |ns| && Lead(after, d, alive) < Lead(ns, d, alive)
  {
    PassOnNode(ns, d, after, d);
    PassOnNode(ns, d, after, alive);
    NobodyClimbs(ns, alive);
    OthersPay(ns, d);
  }

  lemma OthersPay(ns: seq<NodeState>, d: int)
    requires Sound(ns) && OnlyDead(ns, d) && Climb(ns) <= 0
    ensures Sum(Effectives(ns)) >= ns[d].effective
  {
    var e := Effectives(ns);
    var others := e[d := 0];
    forall i | 0 <= i < |others| ensures others[i] >= 0 {
      if i != d {
        NobodyClimbs(ns, i);
      }
    }
    SumUpdate(e, d, 0);
    SumAtLeast(others, 0);
  }

  lemma EndsWithOneDead(ns: seq<NodeState>, d: int, alive: int) returns (k: nat)
    requires Sound(ns) && OnlyDead(ns, d) && 0 <= alive < |ns| && !ns[alive].dead && alive != d
    ensures EndsIn(ns, k)
    decreases Climb(ns), Lead(ns, d, alive)
  {
    var m, after := SomePass(ns);
    if !ns[m].dead {
      EndsNow(ns, m, after);
      return 0;
    }
    assert m == d;
    ClimbFalls(ns, m, after);
    PassKeepsSound(ns, m, after);
    PassKeepsDead(ns, m, after);
    PassOnNode(ns, m, after, alive);
    if Climb(ns) <= 0 {
      OnlyDeadFallsBack(ns, d, after, alive);
    }
    k := EndsWithOneDead(after, d, alive);
    EndsLater(ns, m, after, k);
    k := k + 1;
  }

  lemma TheOnlyDead(ns: seq<NodeState>, d: int)
    requires AtMostOneDead(ns) && 0 <= d < |ns| && ns[d].dead
    ensures OnlyDead(ns, d)
  {
  }

  /** So the search ends. */
  lemma CanEndEnds(ns: seq<NodeState>)
    requires Sound(ns) && CanEnd(ns)
    ensures Ends(ns)
  {
    var alive :| 0 <= alive < |ns| && !ns[alive].dead;
    if NoneFalling(ns) {
      var lo := SomeFloor(ns);
      var k := EndsWithNoneFalling(ns, alive, lo);
    } else {
      var d :| 0 <= d < |ns| && Falling(ns[d]);
      TheOnlyDead(ns, d);
      var k := EndsWithOneDead(ns, d, alive);
    }
  }

  // ----- when two are dead, one of them below its weight

  /** The most the effective weight of a node can be from now on. */
  function Cap(n: NodeState): int {
    if n.dead then n.effective else n.weight
  }

  function Caps(ns: seq<NodeState>): (r: seq<int>)
    ensures |r| == |ns| && forall i :: 0 <= i < |ns| ==> r[i] == Cap(ns[i])
  {
    seq(|ns|, i requires 0 <= i < |ns| => Cap(ns[i]))
  }

  /** The sum of what all others can have. */
  function Rest(ns: seq<NodeState>, p: int): int
    requires 0 <= p < |ns|
  {
    Sum(Caps(ns)[p := 0])
  }

  function Triangle(m: int): int {
    if m <= 0 then 0 else Triangle(m - 1) + m
  }

  function Drop(n: NodeState): int {
    if n.effective < n.weight then 1 else 0
  }

  /** By how much the node is picked before another one: the first of equals is. */
  function Margin(ns: seq<NodeState>, p: int, j: int): int
    requires 0 <= p < |ns| && 0 <= j < |ns|
  {
    Lead(ns, p, j) + (if p < j then 1 else 0)
  }

  /**
   The dead node `p` is far enough ahead of all others to stay in front until the total, which the
   falling node `f` pulls down, makes being picked pay. Its lead can shrink for `m` more passes, by
   one less each time.
   */
  ghost predicate Doomed(ns: seq<NodeState>, p: int, f: int, bound: int, m: int) {
    && Sound(ns)
    && 0 <= p < |ns| && 0 <= f < |ns| && p != f && ns[p].dead && Falling(ns[f])
    && (forall j :: 0 <= j < |ns| && j != p ==> Cap(ns[j]) <= bound)
    && Rest(ns, p) + bound + Drop(ns[p]) <= m
    && (forall j :: 0 <= j < |ns| && j != p ==> Margin(ns, p, j) > Triangle(m))
  }

  lemma {:induction false} TriangleNotNegative(m: int)
    ensures Triangle(m) >= 0
  {
    if m > 0 {
      TriangleNotNegative(m - 1);
    }
  }

  lemma DoomedIsPicked(ns: seq<NodeState>, p: int, f: int, bound: int, m: int, picked: int, after: seq<NodeState>)
    requires Doomed(ns, p, f, bound, m) && IsPass(ns, picked, after)
    ensures picked == p
  {
    TriangleNotNegative(m);
    PassOnNode(ns, picked, after, p);
    assert picked != p ==> Margin(ns, p, picked) > Triangle(m);
  }

  lemma RestFalls(ns: seq<NodeState>, p: int, f: int, picked: int, after: seq<NodeState>)
    requires Sound(ns) && IsPass(ns, picked, after)
    requires 0 <= p < |ns| && 0 <= f < |ns| && p != f && Falling(ns[f])
    ensures |after| == |ns| && Rest(after, p) <= Rest(ns, p) - 1
    ensures forall j :: 0 <= j < |ns| ==> Cap(after[j]) <= Cap(ns[j])
  {
    forall j | 0 <= j < |ns| ensures Cap(after[j]) <= Cap(ns[j]) && (j == f ==> Cap(after[j]) == Cap(ns[j]) - 1) {
      PassOnNode(ns, picked, after, j);
    }
    PassKeepsDead(ns, picked, after);
    var caps := Caps(ns)[p := 0];
    SumUpdate(caps, f, caps[f] - 1);
    SumLeq(Caps(after)[p := 0], caps[f := caps[f] - 1]);
  }

  /** What the other nodes make the picked one pay is no more than they can have. */
  lemma PaysAtMostRest(ns: seq<NodeState>, p: int)
    requires Sound(ns) && 0 <= p < |ns|
    ensures Sum(Effectives(ns)) - ns[p].effective <= Rest(ns, p)
  {
    var e := Effectives(ns);
    SumUpdate(e, p, 0);
    SumLeq(e[p := 0], Caps(ns)[p := 0]);
  }

  lemma LeadAfter(ns: seq<NodeState>, p: int, after: seq<NodeState>, j: int)
    requires Sound(ns) && IsPass(ns, p, after) && ns[p].dead && 0 <= j < |ns| && j != p
    ensures |after| == |ns|
    ensures Lead(after, p, j)
         == Lead(ns, p, j) - (Sum(Effectives(ns)) - ns[p].effective) - Drop(ns[p]) - after[j].effective
  {
    PassOnNode(ns, p, after, p);
    PassOnNode(ns, p, after, j);
  }

  lemma TriangleStep(m: int, margin: int, less: int)
    requires margin > Triangle(m) && less <= m
    ensures margin - less > Triangle(m - 1)
  {
    TriangleNotNegative(m);
  }

  lemma MarginKept(ns: seq<NodeState>, p: int, f: int, bound: int, m: int, after: seq<NodeState>, j: int)
    requires Doomed(ns, p, f, bound, m) && IsPass(ns, p, after) && 0 <= j < |ns| && j != p
    ensures |after| == |ns| && Margin(after, p, j) > Triangle(m - 1)
  {
    var paid := Sum(Effectives(ns)) - ns[p].effective;
    LeadAfter(ns, p, after, j);
    RestFalls(ns, p, f, p, after);
    PaysAtMostRest(ns, p);
    PassKeepsSound(ns, p, after);
    assert after[j].effective <= Cap(after[j]) <= Cap(ns[j]) <= bound;
    assert Margin(ns, p, j) > Triangle(m);
    TriangleStep(m, Margin(ns, p, j), paid + Drop(ns[p]) + after[j].effective);
  }

  lemma DoomedStays(ns: seq<NodeState>, p: int, f: int, bound: int, m: int, picked: int, after: seq<NodeState>)
    requires Doomed(ns, p, f, bound, m) && IsPass(ns, picked, after)
    ensures picked == p && Doomed(after, p, f, bound, m - 1)
  {
    DoomedIsPicked(ns, p, f, bound, m, picked, after);
    PassKeepsSound(ns, p, after);
    PassKeepsDead(ns, p, after);
    RestFalls(ns, p, f, p, after);
    PassOnNode(ns, p, after, p);
    PassOnNode(ns, p, after, f);
    forall j | 0 <= j < |ns| && j != p ensures Margin(after, p, j) > Triangle(m - 1) {
      MarginKept(ns, p, f, bound, m, after, j);
    }
  }

  /** From such a state every pass picks that dead node, and the search never ends. */
  lemma {:induction false} DoomedNeverEnds(ns: seq<NodeState>, p: int, f: int, bound: int, m: int, k: nat)
    requires Doomed(ns, p, f, bound, m)
    ensures !EndsIn(ns, k)
    decreases k
  {
    var picked, after := SomePass(ns);
    DoomedStays(ns, p, f, bound, m, picked, after);
    if EndsIn(ns, k) {
      EndsAfterPass(ns, picked, after, k);
      DoomedNeverEnds(after, p, f, bound, m - 1, k - 1);
    }
  }

  /** The same nodes with other current weights. */
  function WithCurrents(ns: seq<NodeState>, c: seq<int>): (r: seq<NodeState>)
    requires |c| == |ns|
    ensures |r| == |ns| && forall i :: 0 <= i < |ns| ==> r[i] == ns[i].(current := c[i])
  {
    seq(|ns|, i requires 0 <= i < |ns| => ns[i].(current := c[i]))
  }

  /** If two nodes are dead and one of them is below its weight, a large current weight dooms the other. */
  lemma SomeCurrentsDoom(ns: seq<NodeState>, p: int, f: int) returns (c: seq<int>, bound: int, m: int)
    requires Sound(ns) && 0 <= p < |ns| && 0 <= f < |ns| && p != f && ns[p].dead && Falling(ns[f])
    ensures |c| == |ns| && Doomed(WithCurrents(ns, c), p, f, bound, m)
  {
    bound := Sum(Weights(ns));
    m := Rest(ns, p) + bound + 1;
    var top := Triangle(m) + 1 - ns[p].effective + bound;
    c := seq(|ns|, i => if i == p then top else 0);
    var t := WithCurrents(ns, c);
    assert Caps(t) == Caps(ns);
    forall j | 0 <= j < |ns| && j != p ensures Cap(t[j]) <= bound && Margin(t, p, j) > Triangle(m) {
      PartOfSum(Weights(ns), j);
    }
  }

  lemma {:induction false} AllDeadNeverEnds(ns: seq<NodeState>, k: nat)
    requires ns != [] && !SomeAlive(ns)
    ensures !EndsIn(ns, k)
    decreases k
  {
    var m, after := SomePass(ns);
    PassOnNode(ns, m, after, m);
    PassKeepsDead(ns, m, after);
    if EndsIn(ns, k) {
      EndsAfterPass(ns, m, after, k);
      assert !SomeAlive(after);
      AllDeadNeverEnds(after, k - 1);
    }
  }

  lemma NotCanEndSometimesNot(ns: seq<NodeState>) returns (c: seq<int>)
    requires Sound(ns) && ns != [] && !CanEnd(ns)
    ensures |c| == |ns| && !Ends(WithCurrents(ns, c))
  {
    if !SomeAlive(ns) {
      c := seq(|ns|, i => 0);
      var t := WithCurrents(ns, c);
      assert !SomeAlive(t);
      forall k: nat ensures !EndsIn(t, k) {
        AllDeadNeverEnds(t, k);
      }
    } else {
      var i, j :| 0 <= i < j < |ns| && ns[i].dead && ns[j].dead;
      var f :| 0 <= f < |ns| && Falling(ns[f]);
      var p := if i != f then i else j;
      var bound, m;
      c, bound, m := SomeCurrentsDoom(ns, p, f);
      forall k: nat ensures !EndsIn(WithCurrents(ns, c), k) {
        DoomedNeverEnds(WithCurrents(ns, c), p, f, bound, m, k);
      }
    }
  }

  /**
   With positive weights that no effective weight exceeds, the search ends from all current weights
   exactly when some node is alive and either at most one is dead or no dead one is below its weight.
   */
  lemma EndsExactly(ns: seq<NodeState>)
    requires Sound(ns) && ns != []
    ensures (forall c: seq<int> :: |c| == |ns| ==> Ends(WithCurrents(ns, c))) <==> CanEnd(ns)
  {
    if CanEnd(ns) {
      forall c: seq<int> | |c| == |ns| ensures Ends(WithCurrents(ns, c)) {
        SameButCurrents(ns, c);
        CanEndEnds(WithCurrents(ns, c));
      }
    } else {
      var c := NotCanEndSometimesNot(ns);
    }
  }

  lemma SameButCurrents(ns: seq<NodeState>, c: seq<int>)
    requires |c| == |ns| && Sound(ns) && CanEnd(ns)
    ensures Sound(WithCurrents(ns, c)) && CanEnd(WithCurrents(ns, c))
  {
    var t := WithCurrents(ns, c);
    var i :| 0 <= i < |ns| && !ns[i].dead;
    assert !t[i].dead;
    if NoneFalling(ns) {
      assert forall j :: 0 <= j < |t| ==> Falling(t[j]) == Falling(ns[j]);
    }
  }
}
