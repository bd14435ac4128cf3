/** The consistent-hash ring as a map from positions to nodes, and who serves a key. */
module RingSpec {
  datatype ServiceNode = ServiceNode(ip: string, port: string)

  type Ring = map<int, ServiceNode>

  /** The position that serves hash code `h`: the first one after it, or else the first of all. */
  ghost predicate IsSuccessor(keys: set<int>, h: int, k: int) {
    && k in keys
    && if exists q :: q in keys && q > h
       then k > h && forall q :: q in keys && q > h ==> k <= q
       else forall q :: q in keys ==> k <= q
  }

  /** Hash code `h` is routed to node `n`. */
  ghost predicate RoutesTo(ring: Ring, h: int, n: ServiceNode) {
    exists k :: IsSuccessor(ring.Keys, h, k) && ring[k] == n
  }

  lemma SuccessorUnique(keys: set<int>, h: int, k: int, q: int)
    requires IsSuccessor(keys, h, k) && IsSuccessor(keys, h, q)
    ensures k == q
  {
  }

  /** A hash code is routed to at most one node. */
  lemma RouteUnique(ring: Ring, h: int, n: ServiceNode, x: ServiceNode)
    requires RoutesTo(ring, h, n) && RoutesTo(ring, h, x)
    ensures n == x
  {
    var k :| IsSuccessor(ring.Keys, h, k) && ring[k] == n;
    var q :| IsSuccessor(ring.Keys, h, q) && ring[q] == x;
    SuccessorUnique(ring.Keys, h, k, q);
  }

  /** The node takes over the positions, whoever had them. */
  function Placed(ring: Ring, at: set<int>, n: ServiceNode): (r: Ring)
    ensures r.Keys == ring.Keys + at
    ensures forall k :: k in r ==> r[k] == if k in at then n else ring[k]
  {
    map k | k in ring.Keys + at :: if k in at then n else ring[k]
  }

  lemma SuccessorStays(keys: set<int>, gone: set<int>, h: int, k: int)
    requires IsSuccessor(keys, h, k) && k !in gone
    ensures IsSuccessor(keys - gone, h, k)
  {
    if exists q :: q in keys && q > h {
      assert k in keys - gone && k > h;
    }
  }

  /** A hash code whose position goes is served by what comes after that position. */
  lemma SuccessorMovesOn(keys: set<int>, gone: set<int>, h: int, k: int, q: int)
    requires IsSuccessor(keys, h, k) && k in gone
    ensures IsSuccessor(keys - gone, h, q) <==> IsSuccessor(keys - gone, k, q)
  {
    if exists j :: j in keys && j > h {
      assert forall j :: j in keys - gone ==> (j > h <==> j > k);
    } else {
      assert forall j :: j in keys - gone ==> j > k && j <= h;
    }
  }

  lemma SuccessorOf(keys: set<int>, k: int) returns (h: int)
    requires k in keys
    ensures IsSuccessor(keys, h, k)
  {
    h := k - 1;
    assert k > h;
  }

  /**
   Removing positions keeps the route of every key that was not routed to the removed node exactly
   when each removed position of another node is followed by one of that node's own.
   */
  lemma RemovalIsMinimalExactly(ring: Ring, gone: set<int>, n: ServiceNode)
    ensures (forall h, x :: x != n && RoutesTo(ring, h, x) ==> RoutesTo(ring - gone, h, x))
       <==> (forall p :: p in gone && p in ring && ring[p] != n ==> RoutesTo(ring - gone, p, ring[p]))
  {
    if forall p :: p in gone && p in ring && ring[p] != n ==> RoutesTo(ring - gone, p, ring[p]) {
      forall h, x | x != n && RoutesTo(ring, h, x) ensures RoutesTo(ring - gone, h, x) {
        RouteSurvives(ring, gone, n, h, x);
      }
    }
    if forall h, x :: x != n && RoutesTo(ring, h, x) ==> RoutesTo(ring - gone, h, x) {
      forall p | p in gone && p in ring && ring[p] != n ensures RoutesTo(ring - gone, p, ring[p]) {
        AlienIsFollowed(ring, gone, p);
      }
    }
  }

  lemma RouteSurvives(ring: Ring, gone: set<int>, n: ServiceNode, h: int, x: ServiceNode)
    requires forall p :: p in gone && p in ring && ring[p] != n ==> RoutesTo(ring - gone, p, ring[p])
    requires x != n && RoutesTo(ring, h, x)
    ensures RoutesTo(ring - gone, h, x)
  {
    assert (ring - gone).Keys == ring.Keys - gone;
    var k :| IsSuccessor(ring.Keys, h, k) && ring[k] == x;
    if k in gone {
      var q :| IsSuccessor((ring - gone).Keys, k, q) && (ring - gone)[q] == x;
      SuccessorMovesOn(ring.Keys, gone, h, k, q);
    } else {
      SuccessorStays(ring.Keys, gone, h, k);
    }
  }

  lemma AlienIsFollowed(ring: Ring, gone: set<int>, p: int)
    requires p in gone && p in ring
    requires forall h :: RoutesTo(ring, h, ring[p]) ==> RoutesTo(ring - gone, h, ring[p])
    ensures RoutesTo(ring - gone, p, ring[p])
  {
    assert (ring - gone).Keys == ring.Keys - gone;
    var h := SuccessorOf(ring.Keys, p);
    assert RoutesTo(ring, h, ring[p]);
    var q :| IsSuccessor((ring - gone).Keys, h, q) && (ring - gone)[q] == ring[p];
    SuccessorMovesOn(ring.Keys, gone, h, p, q);
  }

  /** When hash codes do not collide, removing a node moves only the keys that were routed to it. */
  lemma RemovalMovesOnlyItsKeys(ring: Ring, gone: set<int>, n: ServiceNode, h: int, x: ServiceNode)
    requires forall p :: p in gone && p in ring ==> ring[p] == n
    requires RoutesTo(ring, h, x)
    ensures x != n ==> RoutesTo(ring - gone, h, x)
  {
    if x != n {
      RouteSurvives(ring, gone, n, h, x);
    }
  }

  /** Adding a node moves keys only onto it: every key stays or is now routed to the new node. */
  lemma AdditionMovesOnlyOntoNode(ring: Ring, at: set<int>, n: ServiceNode, h: int, x: ServiceNode)
    requires RoutesTo(Placed(ring, at, n), h, x)
    ensures x == n || RoutesTo(ring, h, x)
  {
    var more := Placed(ring, at, n);
    var k :| IsSuccessor(more.Keys, h, k) && more[k] == x;
    if k !in at {
      SuccessorStays(more.Keys, at - ring.Keys, h, k);
      assert more.Keys - (at - ring.Keys) == ring.Keys;
    }
  }

  lemma Common<T>(a: set<T>, b: set<T>) returns (x: T)
    requires !(a !! b)
    ensures x in a && x in b
  {
    x :| x in a && x in b;
  }

  lemma SomeElement<T>(s: set<T>) returns (x: T)
    requires s != {}
    ensures x in s
  {
    x :| x in s;
  }

  /** Removing what was just added gives back the ring exactly when the node took over no position. */
  lemma RemovalUndoesAdditionExactly(ring: Ring, at: set<int>, n: ServiceNode)
    ensures Placed(ring, at, n) - at == ring <==> at !! ring.Keys
  {
    var back := Placed(ring, at, n) - at;
    if at !! ring.Keys {
      assert back.Keys == ring.Keys;
    } else {
      var p := Common(at, ring.Keys);
      assert p !in back;
    }
  }

  /** Two nodes can be added in either order exactly when they share no position. */
  lemma AdditionsCommuteExactly(ring: Ring, a: ServiceNode, at: set<int>, b: ServiceNode, bt: set<int>)
    requires a != b
    ensures Placed(Placed(ring, at, a), bt, b) == Placed(Placed(ring, bt, b), at, a) <==> at !! bt
  {
    var ab := Placed(Placed(ring, at, a), bt, b);
    var ba := Placed(Placed(ring, bt, b), at, a);
    if at !! bt {
      assert ab.Keys == ba.Keys;
    } else {
      var p := Common(at, bt);
      assert ab[p] == b && ba[p] == a;
    }
  }

  datatype Change = Add(node: ServiceNode) | Remove(node: ServiceNode)

  /** The ring after some changes, when node `n` has the positions `at(n)`. */
  function After(changes: seq<Change>, at: ServiceNode -> set<int>): Ring {
    if changes == [] then map[] else
      var ring := After(changes[..|changes| - 1], at);
      match changes[|changes| - 1]
      case Add(n) => Placed(ring, at(n), n)
      case Remove(n) => ring - at(n)
  }

  /** Whether the last change that concerned the node added it. */
  predicate Member(changes: seq<Change>, n: ServiceNode) {
    changes != [] &&
    var last := changes[|changes| - 1];
    if last.node == n then last.Add? else Member(changes[..|changes| - 1], n)
  }

  /** The changes concern some nodes of which no two share a position. */
  ghost predicate NoCollisions(changes: seq<Change>, nodes: set<ServiceNode>, at: ServiceNode -> set<int>) {
    && (forall i :: 0 <= i < |changes| ==> changes[i].node in nodes)
    && (forall a, b :: a in nodes && b in nodes && a != b ==> at(a) !! at(b))
  }

  lemma {:induction false} MembersAreNodes(changes: seq<Change>, nodes: set<ServiceNode>, n: ServiceNode)
    requires Member(changes, n) && forall i :: 0 <= i < |changes| ==> changes[i].node in nodes
    ensures n in nodes
  {
    if changes[|changes| - 1].node != n {
      MembersAreNodes(changes[..|changes| - 1], nodes, n);
    }
  }

  predicate Serves(ring: Ring, k: int, n: ServiceNode) {
    k in ring && ring[k] == n
  }

  /** After any changes the ring holds the positions of the members, each served by its own node. */
  ghost predicate IsMembership(ring: Ring, changes: seq<Change>, at: ServiceNode -> set<int>) {
    forall k, n :: Serves(ring, k, n) <==> (Member(changes, n) && k in at(n))
  }

  lemma {:induction false} RingIsMembership(changes: seq<Change>, nodes: set<ServiceNode>, at: ServiceNode -> set<int>)
    requires NoCollisions(changes, nodes, at)
    ensures IsMembership(After(changes, at), changes, at)
  {
    if changes != [] {
      var before := changes[..|changes| - 1];
      RingIsMembership(before, nodes, at);
      match changes[|changes| - 1]
      case Add(n) => AddKeepsMembership(changes, nodes, at, n);
      case Remove(n) => RemoveKeepsMembership(changes, nodes, at, n);
    }
  }

  lemma AddKeepsMembership(changes: seq<Change>, nodes: set<ServiceNode>, at: ServiceNode -> set<int>,
        n: ServiceNode)
    requires NoCollisions(changes, nodes, at) && changes != [] && changes[|changes| - 1] == Add(n)
    requires IsMembership(After(changes[..|changes| - 1], at), changes[..|changes| - 1], at)
    ensures IsMembership(After(changes, at), changes, at)
  {
    var before, ring := After(changes[..|changes| - 1], at), After(changes, at);
    assert ring == Placed(before, at(n), n);
    forall k, x ensures Serves(ring, k, x) <==> (Member(changes, x) && k in at(x)) {
      assert Serves(before, k, x) <==> (Member(changes[..|changes| - 1], x) && k in at(x));
      if x != n && Member(changes[..|changes| - 1], x) {
        MembersAreNodes(changes[..|changes| - 1], nodes, x);
        assert at(x) !! at(n);
      }
    }
  }

  lemma RemoveKeepsMembership(changes: seq<Change>, nodes: set<ServiceNode>, at: ServiceNode -> set<int>,
        n: ServiceNode)
    requires NoCollisions(changes, nodes, at) && changes != [] && changes[|changes| - 1] == Remove(n)
    requires IsMembership(After(changes[..|changes| - 1], at), changes[..|changes| - 1], at)
    ensures IsMembership(After(changes, at), changes, at)
  {
    var before, ring := After(changes[..|changes| - 1], at), After(changes, at);
    assert ring == before - at(n);
    forall k, x ensures Serves(ring, k, x) <==> (Member(changes, x) && k in at(x)) {
      assert Serves(before, k, x) <==> (Member(changes[..|changes| - 1], x) && k in at(x));
      if x != n && Member(changes[..|changes| - 1], x) {
        MembersAreNodes(changes[..|changes| - 1], nodes, x);
        assert at(x) !! at(n);
      }
    }
  }

  /** So routes depend only on who is a member, not on how it came to that. */
  lemma RoutesForgetHistory(one: seq<Change>, other: seq<Change>, nodes: set<ServiceNode>, at: ServiceNode -> set<int>)
    requires NoCollisions(one, nodes, at) && NoCollisions(other, nodes, at)
    requires forall n :: Member(one, n) == Member(other, n)
    ensures After(one, at) == After(other, at)
  {
    RingIsMembership(one, nodes, at);
    RingIsMembership(other, nodes, at);
    var a, b := After(one, at), After(other, at);
    forall k, n ensures Serves(a, k, n) <==> Serves(b, k, n) {
      assert Member(one, n) == Member(other, n);
    }
    SameRing(a, b);
  }

  lemma SameRing(a: Ring, b: Ring)
    requires forall k, n :: Serves(a, k, n) <==> Serves(b, k, n)
    ensures a == b
  {
    forall k ensures (k in a <==> k in b) && (k in a ==> a[k] == b[k]) {
      if k in a {
        assert Serves(a, k, a[k]);
      }
      if k in b {
        assert Serves(b, k, b[k]);
      }
    }
  }
}
