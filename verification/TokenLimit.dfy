/** The token bucket kept by a script in two expiring Redis keys. */
module TokenLimit {
  import opened GoArith
  import opened Wrappers

  datatype Config = Config(rate: int, burst: int) {
    ghost predicate Valid() {
      rate > 0 && burst >= 0
    }

    /** Twice the time to fill the bucket, in whole seconds. */
    function Ttl(): int
      requires rate > 0
    {
      2 * burst / rate
    }
  }

  /** A value in Redis and the time, in milliseconds of its clock, at which it is gone. */
  datatype Entry = Entry(value: int, deadline: int)

  datatype Keys = Keys(tokens: Option<Entry>, stamp: Option<Entry>)

  datatype Reply = Granted | Denied | Failed

  /** What a GET sees. */
  function Get(e: Option<Entry>, clock: int): Option<int> {
    if e.Some? && clock < e.value.deadline then Some(e.value.value) else None
  }

  /** The tokens made while `d` seconds go by; none when the clock goes back. */
  function Minted(c: Config, d: int): int {
    Max(0, d) * c.rate
  }

  lemma MintedSum(c: Config, a: int, b: int)
    requires c.rate > 0 && a >= 0 && b >= 0
    ensures Minted(c, a + b) == Minted(c, a) + Minted(c, b)
    ensures Minted(c, a) >= 0 && Minted(c, 0) == 0
  {
  }

  lemma MintedPositive(c: Config, d: int)
    requires c.rate > 0
    ensures Minted(c, d) >= 0
  {
  }

  /** The tokens in the bucket, topped up for the time that has passed. */
  function Filled(c: Config, tokens: Option<int>, stamp: Option<int>, now: int): int {
    var lastTokens := if tokens.Some? then tokens.value else c.burst;
    var lastRefreshed := if stamp.Some? then stamp.value else 0;
    Min(c.burst, lastTokens + Minted(c, now - lastRefreshed))
  }

  /** One run of the script. Redis refuses a SETEX without a positive time to live, before anything is written. */
  function EvalSpec(c: Config, k: Keys, clock: int, now: int, requested: int): (Reply, Keys)
    requires c.rate > 0
  {
    var filled := Filled(c, Get(k.tokens, clock), Get(k.stamp, clock), now);
    var allowed := filled >= requested;
    if c.Ttl() <= 0 then (Failed, k)
    else
      var left := if allowed then filled - requested else filled;
      var deadline := clock + 1000 * c.Ttl();
      (if allowed then Granted else Denied, Keys(Some(Entry(left, deadline)), Some(Entry(now, deadline))))
  }

  /** The two keys of one limiter in Redis. */
  class Store {
    var tokens: Option<Entry>
    var stamp: Option<Entry>

    function Contents(): Keys
      reads this
    {
      Keys(tokens, stamp)
    }

    constructor ()
      ensures Contents() == Keys(None, None)
    {
      tokens, stamp := None, None;
    }

    method SetEx(isStamp: bool, clock: int, ttl: int, value: int) returns (ok: bool)
      modifies this
      ensures ok == (ttl > 0)
      ensures Contents() ==
        if !ok then old(Contents())
        else if isStamp then old(Contents()).(stamp := Some(Entry(value, clock + 1000 * ttl)))
        else old(Contents()).(tokens := Some(Entry(value, clock + 1000 * ttl)))
    {
      ok := ttl > 0;
      if ok {
        if isStamp {
          stamp := Some(Entry(value, clock + 1000 * ttl));
        } else {
          tokens := Some(Entry(value, clock + 1000 * ttl));
        }
      }
    }

    method Eval(c: Config, clock: int, now: int, requested: int) returns (reply: Reply)
      requires c.rate > 0
      modifies this
      ensures (reply, Contents()) == EvalSpec(c, old(Contents()), clock, now, requested)
    {
      var ttl := c.Ttl();
      var lastTokens := c.burst;
      var t := Get(tokens, clock);
      if t.Some? {
        lastTokens := t.value;
      }
      var lastRefreshed := 0;
      var s := Get(stamp, clock);
      if s.Some? {
        lastRefreshed := s.value;
      }
      var delta := Max(0, now - lastRefreshed);
      var filled := Min(c.burst, lastTokens + delta * c.rate);
      var allowed := filled >= requested;
      var newTokens := filled;
      if allowed {
        newTokens := filled - requested;
      }
      var ok := SetEx(false, clock, ttl, newTokens);
      if !ok {
        return Failed;
      }
      ok := SetEx(true, clock, ttl, now);
      return if allowed then Granted else Denied;
    }
  }

  /**
   The limiter of one process. Calls made by one goroutine at a time; the interleavings of
   several are the subject of the Failover module.
   */
  class TokenLimiter {
    const config: Config
    const store: Store
    var redisAlive: int
    var monitorStarted: bool

    constructor (config: Config, store: Store)
      ensures this.config == config && this.store == store && redisAlive == 1 && !monitorStarted
    {
      this.config := config;
      this.store := store;
      redisAlive, monitorStarted := 1, false;
    }

    /** `reachable` is whether the script gets through to Redis, `rescue` what the in-process limiter would say. */
    method ReserveN(clock: int, now: int, n: int, reachable: bool, rescue: bool) returns (allowed: bool, spawned: bool)
      requires config.rate > 0
      modifies this, store
      ensures var (reply, keys) := EvalSpec(config, old(store.Contents()), clock, now, n);
        if old(redisAlive) == 0 then
          allowed == rescue && !spawned && store.Contents() == old(store.Contents())
        else if reachable && reply != Failed then
          allowed == (reply == Granted) && !spawned && store.Contents() == keys
        else
          allowed == rescue && spawned == !old(monitorStarted) && store.Contents() == old(store.Contents())
      ensures if spawned then monitorStarted && redisAlive == 0
              else monitorStarted == old(monitorStarted) && redisAlive == old(redisAlive)
    {
      spawned := false;
      if redisAlive == 0 {
        return rescue, false;
      }
      var reply := Failed;
      if reachable {
        reply := store.Eval(config, clock, now, n);
      }
      if reply == Failed {
        spawned := StartMonitor();
        return rescue, spawned;
      }
      allowed := reply == Granted;
    }

    method StartMonitor() returns (spawned: bool)
      modifies this
      ensures spawned == !old(monitorStarted) && monitorStarted
      ensures redisAlive == if spawned then 0 else old(redisAlive)
    {
      if monitorStarted {
        return false;
      }
      monitorStarted := true;
      redisAlive := 0;
      spawned := true;
    }

    /** The monitor, given how the pings of its ticker turn out; it ends with the first that is answered. */
    method WaitForRedis(pings: seq<bool>) returns (ended: bool)
      modifies this
      ensures ended == (true in pings)
      ensures if ended then redisAlive == 1 && !monitorStarted
              else redisAlive == old(redisAlive) && monitorStarted == old(monitorStarted)
    {
      for i := 0 to |pings|
        invariant true !in pings[..i]
        invariant redisAlive == old(redisAlive) && monitorStarted == old(monitorStarted)
      {
        if pings[i] {
          redisAlive := 1;
          monitorStarted := false;
          return true;
        }
      }
      ended := false;
    }
  }

  /** A request for `n` tokens, dated by its caller in seconds. */
  datatype Req = Req(now: int, n: int)

  /** A bucket whose keys never expire: nothing before the first request, then tokens and their date. */
  datatype Bucket = Fresh | Since(tokens: int, stamp: int)

  function FillOf(c: Config, b: Bucket, now: int): int {
    match b
    case Fresh => Filled(c, None, None, now)
    case Since(tokens, stamp) => Filled(c, Some(tokens), Some(stamp), now)
  }

  function Serve(c: Config, b: Bucket, r: Req): (bool, Bucket) {
    var filled := FillOf(c, b, r.now);
    (filled >= r.n, Since(if filled >= r.n then filled - r.n else filled, r.now))
  }

  /** The bucket after a run, and what each request was given. */
  function Run(c: Config, reqs: seq<Req>): (r: (seq<int>, Bucket))
    ensures |r.0| == |reqs|
  {
    if reqs == [] then ([], Fresh)
    else
      var (given, b) := Run(c, reqs[..|reqs| - 1]);
      var r := reqs[|reqs| - 1];
      var (allowed, b') := Serve(c, b, r);
      (given + [if allowed then r.n else 0], b')
  }

  /** The time that passes from request `i` to request `j`, counting only steps forward. */
  function Elapsed(reqs: seq<Req>, i: int, j: int): int
    requires 0 <= i <= j < |reqs|
    decreases j
  {
    if j == i then 0 else Elapsed(reqs, i, j - 1) + Max(0, reqs[j].now - reqs[j - 1].now)
  }

  /** The tokens given to the requests from `i` up to, not including, `j`. */
  function Used(given: seq<int>, i: int, j: int): int
    requires 0 <= i <= j <= |given|
    decreases j
  {
    if j == i then 0 else Used(given, i, j - 1) + given[j - 1]
  }

  /** What is left at request `j` of a bucket that was full at request `i` and never overflowed since. */
  function Room(c: Config, reqs: seq<Req>, given: seq<int>, i: int, j: int): int
    requires 0 <= i <= j < |reqs| && |given| == |reqs|
    decreases j
  {
    if j == i then c.burst
    else Room(c, reqs, given, i, j - 1) - given[j - 1] + Minted(c, reqs[j].now - reqs[j - 1].now)
  }

  lemma {:induction false} RoomIs(c: Config, reqs: seq<Req>, given: seq<int>, i: int, j: int)
    requires c.Valid() && 0 <= i <= j < |reqs| && |given| == |reqs|
    ensures Room(c, reqs, given, i, j) == c.burst + c.rate * Elapsed(reqs, i, j) - Used(given, i, j)
    decreases j
  {
    if i < j {
      RoomIs(c, reqs, given, i, j - 1);
      var d := Max(0, reqs[j].now - reqs[j - 1].now);
      assert c.rate * (Elapsed(reqs, i, j - 1) + d) == c.rate * Elapsed(reqs, i, j - 1) + d * c.rate;
    }
  }

  /** The level that request `j` finds. */
  function LevelAt(c: Config, reqs: seq<Req>, j: int): int
    requires 0 <= j < |reqs|
  {
    FillOf(c, Run(c, reqs[..j]).1, reqs[j].now)
  }

  lemma LevelStep(c: Config, reqs: seq<Req>, j: int)
    requires c.Valid() && 0 <= j < |reqs|
    ensures j == 0 ==> LevelAt(c, reqs, j) == c.burst
    ensures j > 0 ==> (LevelAt(c, reqs, j)
         == Min(c.burst, LevelAt(c, reqs, j - 1) - Run(c, reqs).0[j - 1] + Minted(c, reqs[j].now - reqs[j - 1].now)))
  {
    if j == 0 {
      assert reqs[..0] == [];
      MintedPositive(c, reqs[0].now);
    } else {
      var b := Run(c, reqs[..j]).1;
      assert b == Since(LevelAt(c, reqs, j - 1) - Run(c, reqs).0[j - 1], reqs[j - 1].now) by {
        RunAt(c, reqs, j - 1);
      }
      assert LevelAt(c, reqs, j) == FillOf(c, b, reqs[j].now);
    }
  }

  lemma RunAt(c: Config, reqs: seq<Req>, j: int)
    requires 0 <= j < |reqs|
    ensures Run(c, reqs).0[j] == if LevelAt(c, reqs, j) >= reqs[j].n then reqs[j].n else 0
    ensures Run(c, reqs[..j + 1]).1 == Serve(c, Run(c, reqs[..j]).1, reqs[j]).1
    ensures Run(c, reqs[..j + 1]).1.Since? && Run(c, reqs[..j + 1]).1.stamp == reqs[j].now
    ensures Run(c, reqs[..j + 1]).1.tokens == LevelAt(c, reqs, j) - Run(c, reqs).0[j]
  {
    assert reqs[..j + 1][..j] == reqs[..j];
    RunPrefix(c, reqs, j + 1);
    assert Run(c, reqs).0[j] == Run(c, reqs[..j + 1]).0[j];
  }

  lemma {:induction false} RunPrefix(c: Config, reqs: seq<Req>, n: int)
    requires 0 <= n <= |reqs|
    ensures Run(c, reqs[..n]).0 == Run(c, reqs).0[..n]
  {
    if n == |reqs| {
      assert reqs[..n] == reqs;
    } else {
      RunPrefix(c, reqs[..|reqs| - 1], n);
      assert reqs[..|reqs| - 1][..n] == reqs[..n];
    }
  }

  /** The level is the least room over all earlier requests. */
  lemma {:induction false} LevelIsLeastRoom(c: Config, reqs: seq<Req>, j: int) returns (tight: int)
    requires c.Valid() && 0 <= j < |reqs|
    ensures forall i :: 0 <= i <= j ==> LevelAt(c, reqs, j) <= Room(c, reqs, Run(c, reqs).0, i, j)
    ensures 0 <= tight <= j && LevelAt(c, reqs, j) == Room(c, reqs, Run(c, reqs).0, tight, j)
  {
    LevelStep(c, reqs, j);
    if j == 0 {
      tight := 0;
    } else {
      tight := LevelIsLeastRoom(c, reqs, j - 1);
      if LevelAt(c, reqs, j) == c.burst {
        tight := j;
      }
    }
  }

  /**
   The limiter is as generous as its rate allows and never more: a request is granted exactly when,
   for no earlier request, granting it would exceed the burst plus the rate times the time since.
   */
  lemma GrantedExactlyWithinRate(c: Config, reqs: seq<Req>, j: int)
    requires c.Valid() && 0 <= j < |reqs|
    ensures LevelAt(c, reqs, j) >= reqs[j].n
       <==> forall i :: 0 <= i <= j ==> Fits(c, reqs, Run(c, reqs).0, i, j, reqs[j].n)
  {
    var given := Run(c, reqs).0;
    var tight := LevelIsLeastRoom(c, reqs, j);
    forall i | 0 <= i <= j ensures Fits(c, reqs, given, i, j, reqs[j].n) <==> reqs[j].n <= Room(c, reqs, given, i, j) {
      RoomIs(c, reqs, given, i, j);
    }
  }

  /** Giving `n` tokens at request `j` stays within the rate as counted from request `i`. */
  ghost predicate Fits(c: Config, reqs: seq<Req>, given: seq<int>, i: int, j: int, n: int)
    requires 0 <= i <= j < |reqs| && |given| == |reqs|
  {
    Used(given, i, j) + n <= c.burst + c.rate * Elapsed(reqs, i, j)
  }

  /** Between any two requests, no more tokens are given than the burst plus the rate times the time. */
  lemma TokensWithinRate(c: Config, reqs: seq<Req>, i: int, j: int)
    requires c.Valid() && 0 <= i <= j < |reqs|
    ensures Used(Run(c, reqs).0, i, j + 1) <= c.burst + c.rate * Elapsed(reqs, i, j)
  {
    var _ := LevelIsLeastRoom(c, reqs, j);
    RunAt(c, reqs, j);
    TokensInBucket(c, reqs, j);
    RoomIs(c, reqs, Run(c, reqs).0, i, j);
  }

  /** The bucket never holds less than nothing; it never holds more than the burst unless tokens are handed back. */
  lemma {:induction false} TokensInBucket(c: Config, reqs: seq<Req>, j: int)
    requires c.Valid() && 0 <= j < |reqs|
    ensures 0 <= LevelAt(c, reqs, j) <= c.burst
    ensures Run(c, reqs[..j + 1]).1.Since? && 0 <= Run(c, reqs[..j + 1]).1.tokens
    ensures Run(c, reqs[..j + 1]).1.tokens <= c.burst - Min(0, reqs[j].n)
  {
    RunAt(c, reqs, j);
    LevelStep(c, reqs, j);
    if j > 0 {
      TokensInBucket(c, reqs, j - 1);
      RunAt(c, reqs, j - 1);
      MintedPositive(c, reqs[j].now - reqs[j - 1].now);
    }
  }

  ghost predicate InOrder(reqs: seq<Req>) {
    forall i, j :: 0 <= i <= j < |reqs| ==> reqs[i].now <= reqs[j].now
  }

  /** When the callers' clocks agree, the elapsed time is the difference of two dates. */
  lemma {:induction false} ElapsedIsDifference(reqs: seq<Req>, i: int, j: int)
    requires InOrder(reqs) && 0 <= i <= j < |reqs|
    ensures Elapsed(reqs, i, j) == reqs[j].now - reqs[i].now
    decreases j
  {
    if i < j {
      ElapsedIsDifference(reqs, i, j - 1);
    }
  }

  /** Requests for the amounts at the dates. */
  function Requests(dates: seq<int>, amounts: seq<int>): (reqs: seq<Req>)
    requires |amounts| == |dates|
    ensures |reqs| == |dates| && forall i :: 0 <= i < |dates| ==> reqs[i] == Req(dates[i], amounts[i])
  {
    seq(|dates|, i requires 0 <= i < |dates| => Req(dates[i], amounts[i]))
  }

  /** Between any two requests, no more tokens than the burst plus the rate times the difference of the dates. */
  ghost predicate WithinDates(c: Config, reqs: seq<Req>) {
    forall i, j :: 0 <= i <= j < |reqs| ==>
      Used(Run(c, reqs).0, i, j + 1) <= c.burst + c.rate * (reqs[j].now - reqs[i].now)
  }

  lemma InOrderWithinDates(c: Config, reqs: seq<Req>)
    requires c.Valid() && InOrder(reqs)
    ensures WithinDates(c, reqs)
  {
    forall i, j | 0 <= i <= j < |reqs|
      ensures Used(Run(c, reqs).0, i, j + 1) <= c.burst + c.rate * (reqs[j].now - reqs[i].now)
    {
      TokensWithinRate(c, reqs, i, j);
      ElapsedIsDifference(reqs, i, j);
    }
  }

  /** Request `at` asks for the whole burst and the others for nothing. */
  ghost predicate AsksOnce(c: Config, reqs: seq<Req>, at: int) {
    0 <= at < |reqs| && forall k :: 0 <= k < |reqs| ==> reqs[k].n == if k == at then c.burst else 0
  }

  lemma {:induction false} FullUntilAsked(c: Config, reqs: seq<Req>, at: int, j: int)
    requires c.Valid() && AsksOnce(c, reqs, at) && 0 <= j <= at
    ensures LevelAt(c, reqs, j) == c.burst
    decreases j
  {
    LevelStep(c, reqs, j);
    if j > 0 {
      FullUntilAsked(c, reqs, at, j - 1);
      RunAt(c, reqs, j - 1);
      MintedPositive(c, reqs[j].now - reqs[j - 1].now);
    }
  }

  lemma {:induction false} UsedOnce(c: Config, reqs: seq<Req>, at: int, j: int)
    requires c.Valid() && AsksOnce(c, reqs, at) && at <= j < |reqs|
    ensures Used(Run(c, reqs).0, at, j + 1) == c.burst
    decreases j
  {
    RunAt(c, reqs, j);
    if at < j {
      UsedOnce(c, reqs, at, j - 1);
      TokensInBucket(c, reqs, j);
    } else {
      FullUntilAsked(c, reqs, at, at);
    }
  }

  /** A burst at the earlier of two requests whose dates fall is already too much. */
  lemma FallingDatesBreak(c: Config, dates: seq<int>, i: int, j: int) returns (amounts: seq<int>)
    requires c.Valid() && 0 <= i < j < |dates| && dates[i] > dates[j]
    ensures |amounts| == |dates| && !WithinDates(c, Requests(dates, amounts))
  {
    amounts := seq(|dates|, k => if k == i then c.burst else 0);
    var reqs := Requests(dates, amounts);
    UsedOnce(c, reqs, i, j);
    MulStep(c.rate, dates[j] - dates[i], 0);
    assert Used(Run(c, reqs).0, i, j + 1) > c.burst + c.rate * (reqs[j].now - reqs[i].now);
  }

  ghost predicate Ascending(dates: seq<int>) {
    forall i, j :: 0 <= i <= j < |dates| ==> dates[i] <= dates[j]
  }

  /**
   The rate bound in terms of the dates holds of every choice of amounts exactly when the dates do not
   go back: the script stores a date that does, and the same seconds are counted again.
   */
  lemma DatesBoundExactly(c: Config, dates: seq<int>)
    requires c.Valid()
    ensures (forall amounts: seq<int> :: |amounts| == |dates| ==> WithinDates(c, Requests(dates, amounts)))
       <==> Ascending(dates)
  {
    if Ascending(dates) {
      forall amounts: seq<int> | |amounts| == |dates| ensures WithinDates(c, Requests(dates, amounts)) {
        InOrderWithinDates(c, Requests(dates, amounts));
      }
    } else {
      var i, j :| 0 <= i <= j < |dates| && dates[i] > dates[j];
      var amounts := FallingDatesBreak(c, dates, i, j);
    }
  }

  /** A date that goes back is stored, so the same second can be counted twice. */
  lemma DateGoingBackRefills()
    ensures var c, reqs := Config(1, 1), [Req(5, 1), Req(0, 1), Req(5, 1)];
      && Run(c, reqs).0 == [1, 0, 1]
      && Used(Run(c, reqs).0, 0, 3) > c.burst + c.rate * (reqs[2].now - reqs[0].now)
  {
    var c, reqs := Config(1, 1), [Req(5, 1), Req(0, 1), Req(5, 1)];
    var one, two := [Req(5, 1)], [Req(5, 1), Req(0, 1)];
    assert one[..0] == [] && two[..1] == one && reqs[..2] == two;
    assert Serve(c, Fresh, Req(5, 1)) == (true, Since(0, 5));
    assert Serve(c, Since(0, 5), Req(0, 1)) == (false, Since(0, 0));
    assert Serve(c, Since(0, 0), Req(5, 1)) == (true, Since(0, 5));
    assert Run(c, one).0 == [1] && Run(c, one).1 == Since(0, 5);
    assert Run(c, two).0 == [1, 0] && Run(c, two).1 == Since(0, 0);
    assert Run(c, reqs).0 == [1, 0, 1];
    var g := Run(c, reqs).0;
    assert Used(g, 0, 1) == 1 && Used(g, 0, 2) == 1 && Used(g, 0, 3) == 2;
  }

  /** Two buckets no later request can tell apart. */
  ghost predicate Alike(c: Config, a: Bucket, b: Bucket, since: int) {
    forall now :: now >= since ==> FillOf(c, a, now) == FillOf(c, b, now)
  }

  lemma RefillTwice(c: Config, b: Bucket, mid: int, now: int)
    requires c.Valid() && mid <= now && (b.Since? ==> b.stamp <= mid && b.tokens >= 0)
    ensures FillOf(c, Since(FillOf(c, b, mid), mid), now) == FillOf(c, b, now)
  {
    MintedPositive(c, now - mid);
    if b.Since? {
      MintedSum(c, mid - b.stamp, now - mid);
    } else {
      MintedPositive(c, mid);
      MintedPositive(c, now);
    }
  }

  /** A denied request leaves the bucket as good as untouched. */
  lemma DeniedIsAlike(c: Config, b: Bucket, r: Req)
    requires c.Valid() && (b.Since? ==> b.stamp <= r.now && b.tokens >= 0)
    requires !Serve(c, b, r).0
    ensures Alike(c, Serve(c, b, r).1, b, r.now)
  {
    forall now | now >= r.now ensures FillOf(c, Serve(c, b, r).1, now) == FillOf(c, b, now) {
      RefillTwice(c, b, r.now, now);
    }
  }

  /** Serving buckets that are alike gives the same answers from then on. */
  lemma {:induction false} AlikeServed(c: Config, a: Bucket, b: Bucket, since: int, later: seq<Req>)
    requires Alike(c, a, b, since) && InOrder(later) && (later != [] ==> since <= later[0].now)
    ensures ServeAll(c, a, later) == ServeAll(c, b, later)
  {
    if later != [] {
      var r := later[0];
      assert FillOf(c, a, r.now) == FillOf(c, b, r.now);
      assert Serve(c, a, r) == Serve(c, b, r);
    }
  }

  /** The answers to a run of requests. */
  function ServeAll(c: Config, b: Bucket, reqs: seq<Req>): seq<bool>
    decreases |reqs|
  {
    if reqs == [] then []
    else
      var (allowed, b') := Serve(c, b, reqs[0]);
      [allowed] + ServeAll(c, b', reqs[1..])
  }

  function After(c: Config, b: Bucket, reqs: seq<Req>): Bucket
    decreases |reqs|
  {
    if reqs == [] then b else After(c, Serve(c, b, reqs[0]).1, reqs[1..])
  }

  /** Taking a denied request out of a run changes no other answer. */
  lemma DeniedIsInvisible(c: Config, before: seq<Req>, denied: Req, later: seq<Req>)
    requires c.Valid() && InOrder(before + [denied] + later)
    requires !Serve(c, After(c, Fresh, before), denied).0
    ensures ServeAll(c, Fresh, before + [denied] + later)
         == ServeAll(c, Fresh, before) + [false] + ServeAll(c, After(c, Fresh, before), later)
    ensures ServeAll(c, Fresh, before + later)
         == ServeAll(c, Fresh, before) + ServeAll(c, After(c, Fresh, before), later)
  {
    var b := After(c, Fresh, before);
    ServeAllAppend(c, Fresh, before, later);
    ServeAllAppend(c, Fresh, before, [denied] + later);
    assert before + ([denied] + later) == before + [denied] + later;
    assert ([denied] + later)[1..] == later;
    DatesAround(before, denied, later);
    AfterDated(c, Fresh, before, denied.now);
    DeniedIsAlike(c, b, denied);
    AlikeServed(c, Serve(c, b, denied).1, b, denied.now, later);
  }

  lemma DatesAround(before: seq<Req>, r: Req, later: seq<Req>)
    requires InOrder(before + [r] + later)
    ensures forall i :: 0 <= i < |before| ==> before[i].now <= r.now
    ensures InOrder(later) && (later != [] ==> r.now <= later[0].now)
  {
    var all := before + [r] + later;
    assert all[|before|] == r;
    assert forall i :: 0 <= i < |before| ==> all[i] == before[i];
    assert forall i :: 0 <= i < |later| ==> later[i] == all[|before| + 1 + i];
  }

  lemma {:induction false} AfterDated(c: Config, b: Bucket, reqs: seq<Req>, now: int)
    requires c.Valid() && (b.Since? ==> b.stamp <= now && b.tokens >= 0)
    requires forall i :: 0 <= i < |reqs| ==> reqs[i].now <= now
    ensures var a := After(c, b, reqs); a.Since? ==> a.stamp <= now && a.tokens >= 0
    decreases |reqs|
  {
    if reqs != [] {
      var stamp := if b.Since? then b.stamp else 0;
      MintedPositive(c, reqs[0].now - stamp);
      AfterDated(c, Serve(c, b, reqs[0]).1, reqs[1..], now);
    }
  }

  lemma {:induction false} ServeAllAppend(c: Config, b: Bucket, x: seq<Req>, y: seq<Req>)
    ensures ServeAll(c, b, x + y) == ServeAll(c, b, x) + ServeAll(c, After(c, b, x), y)
    decreases |x|
  {
    if x == [] {
      assert x + y == y;
    } else {
      assert (x + y)[1..] == x[1..] + y;
      ServeAllAppend(c, Serve(c, b, x[0]).1, x[1..], y);
    }
  }

  /** The two ways of running a bucket agree. */
  lemma {:induction false} ServeAllIsRun(c: Config, reqs: seq<Req>)
    ensures |ServeAll(c, Fresh, reqs)| == |reqs|
    ensures After(c, Fresh, reqs) == Run(c, reqs).1
    ensures forall j :: 0 <= j < |reqs| ==> (ServeAll(c, Fresh, reqs)[j] <==> LevelAt(c, reqs, j) >= reqs[j].n)
  {
    if reqs != [] {
      var n := |reqs| - 1;
      ServeAllIsRun(c, reqs[..n]);
      assert reqs == reqs[..n] + [reqs[n]];
      ServeAllAppend(c, Fresh, reqs[..n], [reqs[n]]);
      AfterAppend(c, Fresh, reqs[..n], [reqs[n]]);
      forall j | 0 <= j < n ensures LevelAt(c, reqs[..n], j) == LevelAt(c, reqs, j) {
        assert reqs[..n][..j] == reqs[..j];
      }
    }
  }

  lemma {:induction false} AfterAppend(c: Config, b: Bucket, x: seq<Req>, y: seq<Req>)
    ensures After(c, b, x + y) == After(c, After(c, b, x), y)
    decreases |x|
  {
    if x == [] {
      assert x + y == y;
    } else {
      assert (x + y)[1..] == x[1..] + y;
      AfterAppend(c, Serve(c, b, x[0]).1, x[1..], y);
    }
  }
}
