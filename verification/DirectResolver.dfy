/** Direct targets: endpoints written into a target and read back, then a random few of them used. */
module DirectResolver {
  import opened Shuffle

  const SCHEME_PREFIX := "direct:///"
  const SEPARATOR := ','
  const SUBSET_SIZE := 32

  function Join(endpoints: seq<string>): string {
    if endpoints == [] then ""
    else if |endpoints| == 1 then endpoints[0]
    else endpoints[0] + [SEPARATOR] + Join(endpoints[1..])
  }

  function BuildDirectTarget(endpoints: seq<string>): string {
    SCHEME_PREFIX + Join(endpoints)
  }

  /** A field that was read, unless it is empty. */
  function Closed(field: string): seq<string> {
    if field == "" then [] else [field]
  }

  /** The non-empty fields between separators, when `field` has been read of the first one. */
  function FieldsAfter(field: string, s: string): seq<string>
    decreases |s|
  {
    if s == "" then Closed(field)
    else if s[0] == SEPARATOR then Closed(field) + FieldsAfter("", s[1..])
    else FieldsAfter(field + [s[0]], s[1..])
  }

  /** What Go's strings.FieldsFunc makes of an endpoint. */
  function Fields(s: string): seq<string> {
    FieldsAfter("", s)
  }

  predicate Plain(s: string) {
    s != "" && SEPARATOR !in s
  }

  lemma {:induction false} PlainIsRead(field: string, p: string, rest: string)
    requires SEPARATOR !in p
    ensures FieldsAfter(field, p + rest) == FieldsAfter(field + p, rest)
    decreases |p|
  {
    if p == "" {
      assert p + rest == rest && field + p == field;
    } else {
      assert (p + rest)[0] == p[0] && (p + rest)[1..] == p[1..] + rest;
      assert SEPARATOR !in p[1..] && p[0] in p;
      PlainIsRead(field + [p[0]], p[1..], rest);
      assert field + [p[0]] + p[1..] == field + p;
    }
  }

  lemma {:induction false} FieldsArePlain(field: string, s: string)
    requires SEPARATOR !in field
    ensures forall f :: f in FieldsAfter(field, s) ==> Plain(f)
    decreases |s|
  {
    if s != "" {
      if s[0] == SEPARATOR {
        FieldsArePlain("", s[1..]);
      } else {
        FieldsArePlain(field + [s[0]], s[1..]);
      }
    }
  }

  lemma FirstIsRead(first: string, s: string)
    requires Plain(first)
    ensures Fields(first) == [first]
    ensures Fields(first + [SEPARATOR] + s) == [first] + Fields(s)
  {
    PlainIsRead("", first, "");
    assert first + "" == first && "" + first == first;
    var tail := [SEPARATOR] + s;
    PlainIsRead("", first, tail);
    assert first + [SEPARATOR] + s == first + tail && tail[1..] == s;
  }

  lemma {:induction false} JoinIsRead(endpoints: seq<string>)
    requires forall e :: e in endpoints ==> Plain(e)
    ensures Fields(Join(endpoints)) == endpoints
  {
    if endpoints != [] {
      var first, rest := endpoints[0], endpoints[1..];
      assert first in endpoints && endpoints == [first] + rest;
      FirstIsRead(first, Join(rest));
      if rest != [] {
        JoinIsRead(rest);
      }
    }
  }

  function Letters(endpoints: seq<string>): nat {
    if endpoints == [] then 0 else |endpoints[0]| + Letters(endpoints[1..])
  }

  /** A target is the scheme, the endpoints and one separator between any two. */
  lemma {:induction false} TargetLength(endpoints: seq<string>)
    ensures var target := BuildDirectTarget(endpoints);
      && "direct:///" <= target
      && |target| == |"direct:///"| + Letters(endpoints) + (if endpoints == [] then 0 else |endpoints| - 1)
  {
    if |endpoints| > 1 {
      TargetLength(endpoints[1..]);
    } else if |endpoints| == 1 {
      assert Letters(endpoints[1..]) == 0;
    }
  }

  /** The endpoints of a target are read back as they were exactly when none is empty or holds a separator. */
  lemma EndpointsComeBackExactly(endpoints: seq<string>)
    ensures Fields(BuildDirectTarget(endpoints)[|SCHEME_PREFIX|..]) == endpoints
       <==> forall e :: e in endpoints ==> Plain(e)
  {
    assert BuildDirectTarget(endpoints)[|SCHEME_PREFIX|..] == Join(endpoints);
    FieldsArePlain("", Join(endpoints));
    if forall e :: e in endpoints ==> Plain(e) {
      JoinIsRead(endpoints);
    }
  }

  /** Shuffles in place; the first `sub` elements are the subset. */
  method Subset(endpoints: array<string>, sub: nat, draws: seq<nat>) returns (some: seq<string>)
    requires Draws(draws, endpoints.Length)
    modifies endpoints
    ensures endpoints[..] == Shuffled(old(endpoints[..]), draws, endpoints.Length)
    ensures some == if endpoints.Length <= sub then endpoints[..] else endpoints[..sub]
  {
    var i := endpoints.Length;
    while i > 1
      invariant 0 <= i <= endpoints.Length
      invariant Shuffled(endpoints[..], draws, i) == Shuffled(old(endpoints[..]), draws, endpoints.Length)
    {
      i := i - 1;
      var j := draws[i];
      ghost var before := endpoints[..];
      endpoints[i], endpoints[j] := endpoints[j], endpoints[i];
      assert endpoints[..] == Swap(before, i, j);
    }
    if endpoints.Length <= sub {
      return endpoints[..];
    }
    return endpoints[..sub];
  }

  /** The addresses a connection is given: at most 32 of the endpoints, each at most as often as it is listed. */
  method Build(endpoint: string, draws: seq<nat>, accepted: bool) returns (addrs: seq<string>, ok: bool)
    requires Draws(draws, |Fields(endpoint)|)
    ensures ok == accepted
    ensures multiset(addrs) <= multiset(Fields(endpoint))
    ensures |addrs| == if |Fields(endpoint)| <= SUBSET_SIZE then |Fields(endpoint)| else SUBSET_SIZE
    ensures addrs <= Shuffled(Fields(endpoint), draws, |Fields(endpoint)|)
  {
    var fields := Fields(endpoint);
    var endpoints := new string[|fields|](i requires 0 <= i < |fields| => fields[i]);
    assert endpoints[..] == fields;
    var some := Subset(endpoints, SUBSET_SIZE, draws);
    addrs := [];
    for i := 0 to |some|
      invariant addrs == some[..i]
    {
      addrs := addrs + [some[i]];
    }
    assert some[..|some|] == some;
    PrefixIsPart(fields, draws, addrs);
    ok := accepted;
  }

  lemma PrefixIsPart(s: seq<string>, draws: seq<nat>, some: seq<string>)
    requires Draws(draws, |s|) && some <= Shuffled(s, draws, |s|)
    ensures multiset(some) <= multiset(s)
  {
    var t := Shuffled(s, draws, |s|);
    ShuffledPermutes(s, draws, |s|);
    assert t == some + t[|some|..];
  }
}
