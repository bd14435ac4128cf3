/** The consistent-hash ring: a map from positions to nodes with the sorted list of its positions. */
module HashRing {
  import opened HashCode
  import opened RingSpec
  import opened Wrappers

  function DigitChar(d: nat): char
    requires d < 10
  {
    '0' + d as char
  }

  function Itoa(n: nat): (s: string)
    ensures s != [] && ':' !in s
  {
    if n < 10 then [DigitChar(n)] else Itoa(n / 10) + [DigitChar(n % 10)]
  }

  lemma {:induction false} ItoaInjective(a: nat, b: nat)
    requires Itoa(a) == Itoa(b)
    ensures a == b
    decreases a
  {
    var s, t := Itoa(a), Itoa(b);
    assert s[|s| - 1] == DigitChar(a % 10) && t[|t| - 1] == DigitChar(b % 10);
    if a >= 10 && b >= 10 {
      assert s[..|s| - 1] == Itoa(a / 10) && t[..|t| - 1] == Itoa(b / 10);
      ItoaInjective(a / 10, b / 10);
    }
  }

  predicate Digits(s: string) {
    s != [] && forall k :: 0 <= k < |s| ==> '0' <= s[k] <= '9'
  }

  /** The number that decimal digits spell. */
  function ValueOf(s: string): nat
    requires forall k :: 0 <= k < |s| ==> '0' <= s[k] <= '9'
  {
    if s == [] then 0 else 10 * ValueOf(s[..|s| - 1]) + (s[|s| - 1] - '0') as nat
  }

  /** The digits spell the number, without a zero in front. */
  lemma {:induction false} ItoaIsDecimal(n: nat)
    ensures Digits(Itoa(n)) && ValueOf(Itoa(n)) == n && (n > 0 ==> Itoa(n)[0] != '0')
  {
    var s := Itoa(n);
    if n >= 10 {
      ItoaIsDecimal(n / 10);
      assert s[..|s| - 1] == Itoa(n / 10);
      assert s[0] == Itoa(n / 10)[0];
    } else {
      assert s[..0] == [];
    }
  }

  /** The name under which a node's virtual node is hashed. */
  function Name(n: ServiceNode, i: nat): string {
    n.ip + ":" + n.port + ":" + Itoa(i)
  }

  /** It is the address of the node, its port and the decimal digits of the index, with colons between. */
  lemma NameSpellsIndex(n: ServiceNode, i: nat) returns (digits: string)
    ensures Name(n, i) == n.ip + ":" + n.port + ":" + digits
    ensures Digits(digits) && ValueOf(digits) == i && (|digits| > 1 ==> digits[0] != '0')
  {
    ItoaIsDecimal(i);
    digits := Itoa(i);
  }

  /** Two virtual nodes have the same name only if they are the same one of nodes at the same address. */
  lemma NamesMeetExactly(n: ServiceNode, i: nat, m: ServiceNode, j: nat)
    ensures Name(n, i) == Name(m, j) <==> i == j && n.ip + ":" + n.port == m.ip + ":" + m.port
  {
    if Name(n, i) == Name(m, j) {
      LastPart(n.ip + ":" + n.port, Itoa(i), m.ip + ":" + m.port, Itoa(j));
      ItoaInjective(i, j);
    }
  }

  lemma NoColonAfter(a: string, x: string, k: int)
    requires ':' !in x && |a| < k < |a + ":" + x|
    ensures (a + ":" + x)[k] != ':'
  {
    assert (a + ":" + x)[k] == x[k - |a| - 1];
  }

  lemma LastPart(a: string, x: string, b: string, y: string)
    requires ':' !in x && ':' !in y && a + ":" + x == b + ":" + y
    ensures a == b && x == y
  {
    var s := a + ":" + x;
    assert s[|a|] == ':' && s[|b|] == ':';
    if |a| < |b| {
      NoColonAfter(a, x, |b|);
    }
    if |b| < |a| {
      NoColonAfter(b, y, |a|);
    }
    assert s[..|a|] == a && s[|a| + 1..] == x;
    assert (b + ":" + y)[..|b|] == b && (b + ":" + y)[|b| + 1..] == y;
  }

  /** The positions of a node's first `num` virtual nodes. */
  function At(md5: string -> Digest, n: ServiceNode, num: nat): set<int> {
    set i | 0 <= i < num :: Position(md5(Name(n, i)))
  }

  /** The position of the virtual node of an address with index `i`. */
  ghost predicate IsAt(md5: string -> Digest, n: ServiceNode, i: int, k: int) {
    0 <= i && k == Position(md5(n.ip + ":" + n.port + ":" + Itoa(i)))
  }

  /** They are those of the indices below `num`, and no others. */
  lemma AtExactly(md5: string -> Digest, n: ServiceNode, num: nat, k: int)
    ensures k in At(md5, n, num) <==> exists i :: i < num && IsAt(md5, n, i, k)
  {
    if k in At(md5, n, num) {
      var i :| 0 <= i < num && k == Position(md5(Name(n, i)));
      assert IsAt(md5, n, i, k);
    }
    if i :| i < num && IsAt(md5, n, i, k) {
      assert k == Position(md5(Name(n, i)));
    }
  }

  ghost predicate Ascending(s: seq<int>) {
    forall i, j :: 0 <= i < j < |s| ==> s[i] < s[j]
  }

  ghost predicate SameElements(s: seq<int>, keys: set<int>) {
    forall k :: k in s <==> k in keys
  }

  lemma InsertedAscends(s: seq<int>, p: nat, x: int)
    requires Ascending(s) && p <= |s|
    requires (forall i :: 0 <= i < p ==> s[i] < x) && (forall i :: p <= i < |s| ==> x < s[i])
    ensures Ascending(s[..p] + [x] + s[p..])
  {
    var t := s[..p] + [x] + s[p..];
    forall i, j | 0 <= i < j < |t| ensures t[i] < t[j] {
      assert i < p ==> t[i] == s[i];
      assert i > p ==> t[i] == s[i - 1];
      assert j < p ==> t[j] == s[j];
      assert j > p ==> t[j] == s[j - 1];
    }
  }

  /** Go's sort.Sort; which sorting algorithm it uses does not matter. */
  method Sort(s: seq<int>) returns (r: seq<int>)
    requires forall i, j :: 0 <= i < j < |s| ==> s[i] != s[j]
    ensures Ascending(r) && forall k :: k in r <==> k in s
  {
    r := [];
    for i := 0 to |s|
      invariant Ascending(r) && forall k :: k in r <==> k in s[..i]
    {
      var p := 0;
      while p < |r| && r[p] < s[i]
        invariant p <= |r| && forall j :: 0 <= j < p ==> r[j] < s[i]
      {
        p := p + 1;
      }
      assert s[i] !in s[..i];
      if p < |r| {
        assert r[p] in r;
      }
      InsertedAscends(r, p, s[i]);
      assert r == r[..p] + r[p..];
      r := r[..p] + [s[i]] + r[p..];
      assert s[..i + 1] == s[..i] + [s[i]];
    }
    assert s[..|s|] == s;
  }

  /** The binary search of Go's sort.Search for the first key above a hash code. */
  method Search(keys: seq<int>, hashCode: int) returns (i: nat)
    requires Ascending(keys)
    ensures i <= |keys|
    ensures (forall k :: 0 <= k < i ==> keys[k] <= hashCode) && (forall k :: i <= k < |keys| ==> keys[k] > hashCode)
  {
    var j := |keys|;
    i := 0;
    while i < j
      invariant 0 <= i <= j <= |keys|
      invariant forall k :: 0 <= k < i ==> keys[k] <= hashCode
      invariant forall k :: j <= k < |keys| ==> keys[k] > hashCode
    {
      var h := (i + j) / 2;
      if keys[h] > hashCode {
        j := h;
      } else {
        i := h + 1;
      }
    }
  }

  lemma PlacedNext(ring: Ring, at: set<int>, n: ServiceNode, k: int)
    ensures Placed(ring, at, n)[k := n] == Placed(ring, at + {k}, n)
  {
  }

  lemma AtNext(md5: string -> Digest, n: ServiceNode, i: nat)
    ensures At(md5, n, i + 1) == At(md5, n, i) + {Position(md5(Name(n, i)))}
  {
  }

  class VirtualNode {
    const md5: string -> Digest
    var virtualNodes: Ring
    var nodeKeys: seq<int>

    /** The list of keys is the sorted, duplicate-free key set of the map. */
    ghost predicate Valid()
      reads this
    {
      Ascending(nodeKeys) && SameElements(nodeKeys, virtualNodes.Keys)
    }

    constructor (md5: string -> Digest)
      ensures Valid() && virtualNodes == map[] && this.md5 == md5
    {
      this.md5 := md5;
      virtualNodes := map[];
      nodeKeys := [];
    }

    method SortHash()
      modifies this`nodeKeys
      ensures Valid()
    {
      nodeKeys := [];
      var rest := virtualNodes.Keys;
      while rest != {}
        invariant rest <= virtualNodes.Keys && SameElements(nodeKeys, virtualNodes.Keys - rest)
        invariant forall i, j :: 0 <= i < j < |nodeKeys| ==> nodeKeys[i] != nodeKeys[j]
      {
        ghost var some := SomeElement(rest);
        var k :| k in rest;
        nodeKeys := nodeKeys + [k];
        rest := rest - {k};
      }
      nodeKeys := Sort(nodeKeys);
    }

    /** Places the node's virtual nodes, over whatever was at their positions. */
    method AddVirtualNode(serviceNode: ServiceNode, virtualNum: nat)
      modifies this
      ensures Valid()
      ensures virtualNodes == Placed(old(virtualNodes), At(md5, serviceNode, virtualNum), serviceNode)
      ensures forall i, k :: i < virtualNum && IsAt(md5, serviceNode, i, k) ==>
        k in virtualNodes && virtualNodes[k] == serviceNode
    {
      for i := 0 to virtualNum
        invariant virtualNodes == Placed(old(virtualNodes), At(md5, serviceNode, i), serviceNode)
      {
        AtNext(md5, serviceNode, i);
        var code := GetHashCode(md5(Name(serviceNode, i)));
        PlacedNext(old(virtualNodes), At(md5, serviceNode, i), serviceNode, code);
        virtualNodes := virtualNodes[code := serviceNode];
      }
      forall i, k | i < virtualNum && IsAt(md5, serviceNode, i, k) ensures k in At(md5, serviceNode, virtualNum) {
        AtExactly(md5, serviceNode, virtualNum, k);
      }
      SortHash();
    }

    /** Deletes whatever is at the positions of the node's virtual nodes. */
    method RemoveVirtualNode(serviceNode: ServiceNode, virtualNum: nat)
      modifies this
      ensures Valid()
      ensures virtualNodes == old(virtualNodes) - At(md5, serviceNode, virtualNum)
      ensures forall i, k :: i < virtualNum && IsAt(md5, serviceNode, i, k) ==> k !in virtualNodes
    {
      for i := 0 to virtualNum
        invariant virtualNodes == old(virtualNodes) - At(md5, serviceNode, i)
      {
        AtNext(md5, serviceNode, i);
        var code := GetHashCode(md5(Name(serviceNode, i)));
        virtualNodes := virtualNodes - {code};
      }
      forall i, k | i < virtualNum && IsAt(md5, serviceNode, i, k) ensures k in At(md5, serviceNode, virtualNum) {
        AtExactly(md5, serviceNode, virtualNum, k);
      }
      SortHash();
    }

    /** The node a key is routed to; on an empty ring the listing indexes an empty list and panics. */
    method GetVirtualNodel(routeKey: string) returns (n: Option<ServiceNode>)
      requires Valid()
      ensures n.None? <==> virtualNodes == map[]
      ensures forall x :: RoutesTo(virtualNodes, Position(md5(routeKey)), x) <==> n == Some(x)
    {
      var hashCode := GetHashCode(md5(routeKey));
      var i := Search(nodeKeys, hashCode);
      var index := if i < |nodeKeys| then i else 0;
      if index >= |nodeKeys| {
        assert forall k :: k in virtualNodes ==> k in nodeKeys;
        return None;
      }
      assert nodeKeys[index] in nodeKeys;
      FoundIsSuccessor(nodeKeys, virtualNodes.Keys, hashCode, i);
      var node := virtualNodes[nodeKeys[index]];
      forall x | RoutesTo(virtualNodes, hashCode, x) ensures x == node {
        RouteUnique(virtualNodes, hashCode, x, node);
      }
      return Some(node);
    }
  }

  lemma FoundIsSuccessor(s: seq<int>, keys: set<int>, h: int, i: nat)
    requires Ascending(s) && SameElements(s, keys) && s != [] && i <= |s|
    requires (forall k :: 0 <= k < i ==> s[k] <= h) && (forall k :: i <= k < |s| ==> s[k] > h)
    ensures IsSuccessor(keys, h, s[if i < |s| then i else 0])
  {
    if i < |s| {
      assert s[i] in s;
      forall q | q in keys && q > h ensures s[i] <= q {
        var j :| 0 <= j < |s| && s[j] == q;
      }
    } else {
      assert s[0] in s;
      forall q | q in keys ensures s[0] <= q <= h {
        var j :| 0 <= j < |s| && s[j] == q;
      }
    }
  }
}
