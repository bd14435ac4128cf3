/** The handler that tracks Kubernetes endpoints and publishes their addresses. */
module Kube {

  type Address = string

  /** An endpoints object: subsets of addresses, and its resource version. */
  datatype Endpoints = Endpoints(subsets: seq<seq<Address>>, version: string)

  /** What the informer hands over: an endpoints object or something else. */
  datatype Object = Known(endpoints: Endpoints) | Unknown

  function SetOf(s: seq<Address>): set<Address> {
    set a | a in s
  }

  function AddressSet(subsets: seq<seq<Address>>): set<Address> {
    if subsets == [] then {} else AddressSet(subsets[..|subsets| - 1]) + SetOf(subsets[|subsets| - 1])
  }

  datatype Event =
    | Add(obj: Object)
    | Delete(obj: Object)
    | OnUpdate(before: Object, now: Object)
    | Replace(endpoints: Endpoints)

  /** The addresses tracked after an event. */
  function Tracked(tracked: set<Address>, e: Event): set<Address> {
    match e
    case Add(Known(ep)) => tracked + AddressSet(ep.subsets)
    case Delete(Known(ep)) => tracked - AddressSet(ep.subsets)
    case OnUpdate(Known(before), Known(now)) =>
      if before.version == now.version then tracked else AddressSet(now.subsets)
    case Replace(ep) => AddressSet(ep.subsets)
    case _ => tracked
  }

  ghost predicate NoDuplicates(s: seq<Address>) {
    forall i, j :: 0 <= i < j < |s| ==> s[i] != s[j]
  }

  /** A list that names each tracked address once. */
  ghost predicate Lists(view: seq<Address>, tracked: set<Address>) {
    NoDuplicates(view) && (forall a :: a in view <==> a in tracked)
  }

  /** Are two sets different? Their sizes are compared first, then one is searched in the other. */
  method Diff(o: set<Address>, n: set<Address>) returns (different: bool)
    ensures different <==> o != n
  {
    if |o| != |n| {
      return true;
    }
    var rest := o;
    while rest != {}
      invariant rest <= o
      invariant o - rest <= n
      decreases |rest|
    {
      var k :| k in rest;
      if k !in n {
        return true;
      }
      rest := rest - {k};
    }
    SameSize(o, n);
    return false;
  }

  lemma {:induction false} SameSize(o: set<Address>, n: set<Address>)
    requires o <= n && |o| == |n|
    ensures o == n
  {
    if o != {} {
      var k :| k in o;
      SameSize(o - {k}, n - {k});
    }
  }

  class EventHandler {
    var endpoints: set<Address>
    // every list ever passed to the update callback, in order
    var published: seq<seq<Address>>

    /** The last list published, or nothing before the first one. */
    function View(): seq<Address>
      reads this
    {
      if published == [] then [] else published[|published| - 1]
    }

    ghost predicate Valid()
      reads this
    {
      Lists(View(), endpoints)
    }

    constructor ()
      ensures Valid() && endpoints == {} && published == []
    {
      endpoints, published := {}, [];
    }

    /** The inner loop over the addresses of one subset, when they are added. */
    method AddPoints(points: seq<Address>) returns (changed: bool)
      modifies this`endpoints
      ensures endpoints == old(endpoints) + SetOf(points)
      ensures changed <==> endpoints != old(endpoints)
    {
      changed := false;
      ghost var gained: Address := [];
      for j := 0 to |points|
        invariant endpoints == old(endpoints) + SetOf(points[..j])
        invariant if changed then gained in endpoints && gained !in old(endpoints) else endpoints == old(endpoints)
      {
        NextAddress(points, j);
        if points[j] !in endpoints {
          endpoints := endpoints + {points[j]};
          changed := true;
          gained := points[j];
        }
      }
      assert points[..|points|] == points;
    }

    method OnAdd(obj: Object)
      requires Valid()
      modifies this
      ensures Valid() && endpoints == Tracked(old(endpoints), Add(obj))
      ensures |published| == |old(published)| + (if endpoints != old(endpoints) then 1 else 0)
      ensures old(published) <= published
    {
      if obj.Unknown? {
        return;
      }
      var subsets := obj.endpoints.subsets;
      var changed := false;
      for i := 0 to |subsets|
        invariant published == old(published)
        invariant endpoints == old(endpoints) + AddressSet(subsets[..i])
        invariant changed <==> endpoints != old(endpoints)
      {
        ghost var before := endpoints;
        var more := AddPoints(subsets[i]);
        NextSubset(subsets, i);
        SmallerStill(endpoints, before, old(endpoints));
        changed := changed || more;
      }
      assert subsets[..|subsets|] == subsets;
      if changed {
        Notify();
      }
    }

    /** The inner loop over the addresses of one subset, when they are deleted. */
    method DeletePoints(points: seq<Address>) returns (changed: bool)
      modifies this`endpoints
      ensures endpoints == old(endpoints) - SetOf(points)
      ensures changed <==> endpoints != old(endpoints)
    {
      changed := false;
      ghost var lost: Address := [];
      for j := 0 to |points|
        invariant endpoints == old(endpoints) - SetOf(points[..j])
        invariant if changed then lost in old(endpoints) && lost !in endpoints else endpoints == old(endpoints)
      {
        NextAddress(points, j);
        if points[j] in endpoints {
          endpoints := endpoints - {points[j]};
          changed := true;
          lost := points[j];
        }
      }
      assert points[..|points|] == points;
    }

    method OnDelete(obj: Object)
      requires Valid()
      modifies this
      ensures Valid() && endpoints == Tracked(old(endpoints), Delete(obj))
      ensures |published| == |old(published)| + (if endpoints != old(endpoints) then 1 else 0)
      ensures old(published) <= published
    {
      if obj.Unknown? {
        return;
      }
      var subsets := obj.endpoints.subsets;
      var changed := false;
      for i := 0 to |subsets|
        invariant published == old(published)
        invariant endpoints == old(endpoints) - AddressSet(subsets[..i])
        invariant changed <==> endpoints != old(endpoints)
      {
        ghost var before := endpoints;
        var more := DeletePoints(subsets[i]);
        NextSubset(subsets, i);
        MinusTwice(old(endpoints), AddressSet(subsets[..i]), SetOf(subsets[i]));
        SmallerStill(old(endpoints), before, endpoints);
        changed := changed || more;
      }
      assert subsets[..|subsets|] == subsets;
      if changed {
        Notify();
      }
    }

    method OnUpdate(before: Object, now: Object)
      requires Valid()
      modifies this
      ensures Valid() && endpoints == Tracked(old(endpoints), Event.OnUpdate(before, now))
      ensures |published| == |old(published)| + (if endpoints != old(endpoints) then 1 else 0)
      ensures old(published) <= published
    {
      if before.Unknown? || now.Unknown? {
        return;
      }
      if before.endpoints.version == now.endpoints.version {
        return;
      }
      Update(now.endpoints);
    }

    method Update(ep: Endpoints)
      requires Valid()
      modifies this
      ensures Valid() && endpoints == AddressSet(ep.subsets)
      ensures |published| == |old(published)| + (if endpoints != old(endpoints) then 1 else 0)
      ensures old(published) <= published
    {
      var prior := endpoints;
      endpoints := {};
      var subsets := ep.subsets;
      for i := 0 to |subsets|
        invariant published == old(published)
        invariant endpoints == AddressSet(subsets[..i])
      {
        for j := 0 to |subsets[i]|
          invariant published == old(published)
          invariant endpoints == AddressSet(subsets[..i]) + SetOf(subsets[i][..j])
        {
          NextAddress(subsets[i], j);
          endpoints := endpoints + {subsets[i][j]};
        }
        NextSubset(subsets, i);
      }
      assert subsets[..|subsets|] == subsets;
      var different := Diff(prior, endpoints);
      if different {
        Notify();
      }
    }

    /** Publishes the tracked addresses, in no particular order. */
    method Notify()
      modifies this`published
      ensures Valid()
      ensures published == old(published) + [View()]
    {
      var targets: seq<Address> := [];
      var rest := endpoints;
      while rest != {}
        invariant rest <= endpoints && published == old(published)
        invariant Lists(targets, endpoints - rest)
        decreases |rest|
      {
        var k :| k in rest;
        targets := targets + [k];
        rest := rest - {k};
      }
      published := published + [targets];
    }
  }

  lemma SmallerStill(a: set<Address>, b: set<Address>, c: set<Address>)
    requires a >= b >= c
    ensures a != c <==> a != b || b != c
  {
  }

  lemma MinusTwice(a: set<Address>, b: set<Address>, c: set<Address>)
    ensures (a - b) - c == a - (b + c) && a >= a - b >= (a - b) - c
  {
  }

  lemma NextAddress(s: seq<Address>, j: int)
    requires 0 <= j < |s|
    ensures SetOf(s[..j + 1]) == SetOf(s[..j]) + {s[j]}
  {
    assert s[..j + 1] == s[..j] + [s[j]];
  }

  lemma NextSubset(subsets: seq<seq<Address>>, i: int)
    requires 0 <= i < |subsets|
    ensures AddressSet(subsets[..i + 1]) == AddressSet(subsets[..i]) + SetOf(subsets[i])
    ensures subsets[i][..|subsets[i]|] == subsets[i]
  {
    assert subsets[..i + 1][..i] == subsets[..i];
  }

  /** The addresses tracked after a run of events. */
  function TrackedAll(events: seq<Event>): set<Address> {
    if events == [] then {} else Tracked(TrackedAll(events[..|events| - 1]), events[|events| - 1])
  }

  datatype Decision = Silent | Present | Gone

  /** What one event says about one address. */
  function Decides(e: Event, a: Address): Decision {
    match e
    case Add(Known(ep)) => if a in AddressSet(ep.subsets) then Present else Silent
    case Delete(Known(ep)) => if a in AddressSet(ep.subsets) then Gone else Silent
    case OnUpdate(Known(before), Known(now)) =>
      if before.version == now.version then Silent else if a in AddressSet(now.subsets) then Present else Gone
    case Replace(ep) => if a in AddressSet(ep.subsets) then Present else Gone
    case _ => Silent
  }

  /** Event `i` is the last one with a say in address `a`, and makes it present. */
  ghost predicate MadePresent(events: seq<Event>, a: Address, i: int) {
    && 0 <= i < |events| && Decides(events[i], a) == Present
    && forall j :: i < j < |events| ==> Decides(events[j], a) == Silent
  }

  lemma {:induction false} TrackedWasMadePresent(events: seq<Event>, a: Address) returns (i: int)
    requires a in TrackedAll(events)
    ensures MadePresent(events, a, i)
  {
    i := |events| - 1;
    if Decides(events[i], a) == Silent {
      i := TrackedWasMadePresent(events[..i], a);
      assert events[..|events| - 1][i] == events[i];
      assert forall j :: i < j < |events| - 1 ==> events[j] == events[..|events| - 1][j];
    }
  }

  lemma {:induction false} MadePresentIsTracked(events: seq<Event>, a: Address, i: int)
    requires MadePresent(events, a, i)
    ensures a in TrackedAll(events)
  {
    if i < |events| - 1 {
      assert Decides(events[|events| - 1], a) == Silent;
      MadePresentIsTracked(events[..|events| - 1], a, i);
    }
  }

  /** An address is tracked exactly when the last event with a say in it made it present. */
  lemma LastEventDecides(events: seq<Event>, a: Address)
    ensures a in TrackedAll(events) <==> exists i :: MadePresent(events, a, i)
  {
    if a in TrackedAll(events) {
      var i := TrackedWasMadePresent(events, a);
    }
    if exists i :: MadePresent(events, a, i) {
      var i :| MadePresent(events, a, i);
      MadePresentIsTracked(events, a, i);
    }
  }
}
