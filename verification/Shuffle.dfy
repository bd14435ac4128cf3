/** Go's rand.Shuffle, for any draws. */
module Shuffle {
  function Swap<T>(s: seq<T>, i: nat, j: nat): seq<T>
    requires i < |s| && j < |s|
  {
    s[i := s[j]][j := s[i]]
  }

  /** One draw for each index, each at most the index. */
  predicate Draws(draws: seq<nat>, n: nat) {
    |draws| == n && forall i :: 0 <= i < n ==> draws[i] <= i
  }

  /** The first `n` elements shuffled, from the last one down. */
  function Shuffled<T>(s: seq<T>, draws: seq<nat>, n: nat): (r: seq<T>)
    requires n <= |s| && Draws(draws, |s|)
    ensures |r| == |s|
    decreases n
  {
    if n <= 1 then s else Shuffled(Swap(s, n - 1, draws[n - 1]), draws, n - 1)
  }

  lemma SwapPermutes<T>(s: seq<T>, i: nat, j: nat)
    requires i < |s| && j < |s|
    ensures multiset(Swap(s, i, j)) == multiset(s)
  {
  }

  lemma {:induction false} ShuffledPermutes<T>(s: seq<T>, draws: seq<nat>, n: nat)
    requires n <= |s| && Draws(draws, |s|)
    ensures multiset(Shuffled(s, draws, n)) == multiset(s)
    decreases n
  {
    if n > 1 {
      SwapPermutes(s, n - 1, draws[n - 1]);
      ShuffledPermutes(Swap(s, n - 1, draws[n - 1]), draws, n - 1);
    }
  }

  lemma {:induction false} DrawsBelow<T>(s: seq<T>, draws: seq<nat>, more: seq<nat>, n: nat)
    requires n <= |s| && Draws(draws, |s|) && Draws(more, |s|)
    requires forall i :: 0 <= i < n ==> draws[i] == more[i]
    ensures Shuffled(s, draws, n) == Shuffled(s, more, n)
    decreases n
  {
    if n > 1 {
      DrawsBelow(Swap(s, n - 1, draws[n - 1]), draws, more, n - 1);
    }
  }

  /** `t` is a rearrangement of the first `n` elements of `s`. */
  ghost predicate Rearranged<T>(s: seq<T>, n: nat, t: seq<T>) {
    n <= |s| == |t| && multiset(s[..n]) == multiset(t[..n]) && s[n..] == t[n..]
  }

  lemma AlreadyDrawn<T>(s: seq<T>, n: nat, t: seq<T>)
    requires Rearranged(s, n, t) && n <= 1
    ensures s == t
  {
    assert s == s[..n] + s[n..] && t == t[..n] + t[n..];
    if n == 1 {
      assert s[..1] == [s[0]] && t[..1] == [t[0]];
      assert s[0] in multiset(t[..1]);
    }
  }

  lemma WithoutLast<T>(s: seq<T>)
    requires s != []
    ensures multiset(s) == multiset(s[..|s| - 1]) + multiset{s[|s| - 1]}
  {
    assert s == s[..|s| - 1] + [s[|s| - 1]];
  }

  lemma Cancelled<T>(a: multiset<T>, b: multiset<T>, x: T)
    requires a + multiset{x} == b + multiset{x}
    ensures a == b
  {
    assert a == a + multiset{x} - multiset{x} && b == b + multiset{x} - multiset{x};
  }

  lemma SameWithoutLast<T>(p: seq<T>, q: seq<T>)
    requires |p| == |q| > 0 && multiset(p) == multiset(q) && p[|p| - 1] == q[|q| - 1]
    ensures multiset(p[..|p| - 1]) == multiset(q[..|q| - 1])
  {
    WithoutLast(p);
    WithoutLast(q);
    Cancelled(multiset(p[..|p| - 1]), multiset(q[..|q| - 1]), q[|q| - 1]);
  }

  lemma FindIn<T>(p: seq<T>, q: seq<T>, i: nat) returns (j: nat)
    requires multiset(p) == multiset(q) && i < |q|
    ensures j < |p| && p[j] == q[i]
  {
    assert q[i] in multiset(q);
    assert q[i] in multiset(p);
    j :| 0 <= j < |p| && p[j] == q[i];
  }

  lemma LastDrawn<T>(p: seq<T>, q: seq<T>) returns (j: nat)
    requires |p| == |q| > 0 && multiset(p) == multiset(q)
    ensures j < |p| && p[j] == q[|q| - 1]
    ensures multiset(Swap(p, |p| - 1, j)[..|p| - 1]) == multiset(q[..|q| - 1])
  {
    j := FindIn(p, q, |q| - 1);
    SwappedLast(p, q, j);
  }

  lemma SwappedLast<T>(p: seq<T>, q: seq<T>, j: nat)
    requires j < |p| == |q| && multiset(p) == multiset(q) && p[j] == q[|q| - 1]
    ensures multiset(Swap(p, |p| - 1, j)[..|p| - 1]) == multiset(q[..|q| - 1])
  {
    var u := Swap(p, |p| - 1, j);
    SwapPermutes(p, |p| - 1, j);
    assert u[|u| - 1] == q[|q| - 1];
    SameWithoutLast(u, q);
  }

  lemma DrawLast<T>(s: seq<T>, n: nat, t: seq<T>) returns (j: nat)
    requires n > 0 && Rearranged(s, n, t)
    ensures j < n && Rearranged(Swap(s, n - 1, j), n - 1, t)
  {
    j := LastDrawn(s[..n], t[..n]);
    SwapInPrefix(s, n, j);
    assert t[..n][..n - 1] == t[..n - 1];
    assert t[n - 1..] == [t[n - 1]] + t[n..];
  }

  lemma SwapInPrefix<T>(s: seq<T>, n: nat, j: nat)
    requires j < n <= |s|
    ensures Swap(s[..n], n - 1, j)[..n - 1] == Swap(s, n - 1, j)[..n - 1]
    ensures Swap(s, n - 1, j)[n - 1..] == [s[j]] + s[n..]
  {
  }

  lemma NoneDrawn<T>(s: seq<T>, n: nat, t: seq<T>) returns (draws: seq<nat>)
    requires Rearranged(s, n, t) && n <= 1
    ensures Draws(draws, |s|) && Shuffled(s, draws, n) == t
  {
    draws := seq(|s|, i => 0);
    AlreadyDrawn(s, n, t);
  }

  lemma DrawnFirst<T>(s: seq<T>, n: nat, j: nat, later: seq<nat>) returns (draws: seq<nat>)
    requires j < n <= |s| && n > 1 && Draws(later, |s|)
    ensures Draws(draws, |s|) && Shuffled(s, draws, n) == Shuffled(Swap(s, n - 1, j), later, n - 1)
  {
    draws := later[n - 1 := j];
    DrawsBelow(Swap(s, n - 1, j), later, draws, n - 1);
  }

  /** The shuffle can come out in every order. */
  lemma {:induction false} EveryOrderIsDrawn<T>(s: seq<T>, n: nat, t: seq<T>) returns (draws: seq<nat>)
    requires Rearranged(s, n, t)
    ensures Draws(draws, |s|) && Shuffled(s, draws, n) == t
    decreases n
  {
    if n <= 1 {
      draws := NoneDrawn(s, n, t);
    } else {
      var j := DrawLast(s, n, t);
      var later := EveryOrderIsDrawn(Swap(s, n - 1, j), n - 1, t);
      draws := DrawnFirst(s, n, j, later);
    }
  }

  /** What a shuffle can come out as is every order of its elements, and nothing else. */
  lemma ShuffledIsAnyOrder<T>(s: seq<T>, t: seq<T>)
    ensures (exists draws :: Draws(draws, |s|) && Shuffled(s, draws, |s|) == t) <==> multiset(s) == multiset(t)
  {
    if multiset(s) == multiset(t) {
      assert |s| == |multiset(s)| == |multiset(t)| == |t|;
      assert s[..|s|] == s && t[..|s|] == t;
      var draws := EveryOrderIsDrawn(s, |s|, t);
    }
    if draws :| Draws(draws, |s|) && Shuffled(s, draws, |s|) == t {
      ShuffledPermutes(s, draws, |s|);
    }
  }
}
