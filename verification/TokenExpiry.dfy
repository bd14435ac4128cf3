/** When it shows that the token bucket's keys expire. */
module TokenExpiry {
  import opened GoArith
  import opened TokenLimit
  import opened Wrappers

  /** A request: the Redis clock in milliseconds when the script runs, and the date in seconds its caller had read. */
  datatype Timed = Timed(clock: int, now: int, n: int)

  function Dated(t: Timed): Req {
    Req(t.now, t.n)
  }

  function DatedAll(ts: seq<Timed>): seq<Req> {
    seq(|ts|, i requires 0 <= i < |ts| => Dated(ts[i]))
  }

  function Replies(c: Config, k: Keys, ts: seq<Timed>): seq<Reply>
    requires c.rate > 0
    decreases |ts|
  {
    if ts == [] then []
    else
      var (reply, k') := EvalSpec(c, k, ts[0].clock, ts[0].now, ts[0].n);
      [reply] + Replies(c, k', ts[1..])
  }

  function Answers(allowed: seq<bool>): seq<Reply> {
    seq(|allowed|, i requires 0 <= i < |allowed| => if allowed[i] then Granted else Denied)
  }

  lemma AnswersCons(first: bool, rest: seq<bool>)
    ensures Answers([first] + rest) == [if first then Granted else Denied] + Answers(rest)
  {
  }

  /** Scripts run one after the other, each with a date at most `lag` whole seconds behind the Redis clock. */
  ghost predicate Lagging(ts: seq<Timed>, lag: nat) {
    && (forall i :: 0 <= i < |ts| ==> Dates(ts[i], lag))
    && forall i, j :: 0 <= i <= j < |ts| ==> ts[i].clock <= ts[j].clock
  }

  predicate Dates(t: Timed, lag: nat) {
    0 <= t.clock / 1000 - lag <= t.now <= t.clock / 1000
  }

  /** The stored keys hold the bucket, written at `wrote`. */
  ghost predicate Holds(c: Config, k: Keys, b: Bucket, wrote: int)
    requires c.rate > 0
  {
    match b
    case Fresh => k == Keys(None, None)
    case Since(tokens, stamp) =>
      var deadline := wrote + 1000 * c.Ttl();
      k == Keys(Some(Entry(tokens, deadline)), Some(Entry(stamp, deadline))) && stamp <= wrote / 1000 && tokens >= 0
  }

  /** The time to live outlasts the time to fill the bucket by the lag. */
  predicate Outlasts(c: Config, lag: nat)
    requires c.rate > 0
  {
    c.Ttl() >= 1 && c.burst <= (c.Ttl() - lag) * c.rate
  }

  lemma TwiceFilled(burst: int, rate: int, ttl: int)
    requires rate > 0 && burst >= 0 && rate * ttl <= 2 * burst < rate * ttl + rate
    ensures ttl >= 1 <==> 2 * burst >= rate
    ensures ttl >= 1 ==> burst <= rate * ttl
  {
    MulStep(rate, ttl, 1);
    MulStep(rate, 0, ttl);
    if ttl >= 1 {
      MulStep(rate, 1, ttl);
    }
  }

  lemma TtlFills(c: Config)
    requires c.Valid()
    ensures Outlasts(c, 0) <==> 2 * c.burst >= c.rate
    ensures Outlasts(c, 0) <==> c.Ttl() >= 1
  {
    var ttl := 2 * c.burst / c.rate;
    assert c.rate * ttl <= 2 * c.burst < c.rate * ttl + c.rate;
    TwiceFilled(c.burst, c.rate, ttl);
    assert (ttl - 0) * c.rate == c.rate * ttl;
  }

  /** Once the keys are gone, the bucket would have been full anyway. */
  lemma ExpiredIsFull(c: Config, k: Keys, b: Bucket, wrote: int, t: Timed, lag: nat)
    requires c.Valid() && Outlasts(c, lag) && wrote <= t.clock && Dates(t, lag) && Holds(c, k, b, wrote)
    ensures Filled(c, Get(k.tokens, t.clock), Get(k.stamp, t.clock), t.now) == FillOf(c, b, t.now)
    ensures 0 <= FillOf(c, b, t.now) <= c.burst
  {
    MintedPositive(c, t.now);
    if b.Since? {
      MintedPositive(c, t.now - b.stamp);
      if t.clock >= wrote + 1000 * c.Ttl() {
        QuotientShift(t.clock, 1000, c.Ttl());
        QuotientMonotone(wrote, t.clock - 1000 * c.Ttl(), 1000);
        MintedEnough(c, t.now - b.stamp, lag);
      }
    }
  }

  lemma MintedEnough(c: Config, d: int, lag: nat)
    requires c.Valid() && Outlasts(c, lag) && d >= c.Ttl() - lag
    ensures Minted(c, d) >= c.burst
  {
    MintedPositive(c, d);
    if d >= 0 {
      MulStep(c.rate, c.Ttl() - lag, d);
    } else {
      MulStep(c.rate, d, 0);
      MulStep(c.rate, c.Ttl() - lag, 0);
    }
  }

  lemma OneAnswer(c: Config, k: Keys, b: Bucket, wrote: int, t: Timed, lag: nat)
    requires c.Valid() && Outlasts(c, lag) && wrote <= t.clock && Dates(t, lag) && Holds(c, k, b, wrote)
    ensures var (reply, k') := EvalSpec(c, k, t.clock, t.now, t.n);
      var (allowed, b') := Serve(c, b, Dated(t));
      Holds(c, k', b', t.clock) && reply == (if allowed then Granted else Denied)
  {
    ExpiredIsFull(c, k, b, wrote, t, lag);
  }

  /** From any stored bucket, expiring keys answer every run like keys that never expire. */
  lemma {:induction false} ExpiryKeepsAnswers(c: Config, k: Keys, b: Bucket, wrote: int, ts: seq<Timed>, lag: nat)
    requires c.Valid() && Outlasts(c, lag) && Holds(c, k, b, wrote)
    requires Lagging(ts, lag) && (ts != [] ==> wrote <= ts[0].clock)
    ensures Replies(c, k, ts) == Answers(ServeAll(c, b, DatedAll(ts)))
    decreases |ts|
  {
    if ts != [] {
      var t := ts[0];
      OneAnswer(c, k, b, wrote, t, lag);
      var (reply, k') := EvalSpec(c, k, t.clock, t.now, t.n);
      var (allowed, b') := Serve(c, b, Dated(t));
      assert DatedAll(ts)[0] == Dated(t) && DatedAll(ts)[1..] == DatedAll(ts[1..]);
      ExpiryKeepsAnswers(c, k', b', t.clock, ts[1..], lag);
      AnswersCons(allowed, ServeAll(c, b', DatedAll(ts[1..])));
    }
  }

  /** Expiring keys and keys that never expire give the same answers. */
  ghost predicate Invisible(c: Config, ts: seq<Timed>)
    requires c.rate > 0
  {
    Replies(c, Keys(None, None), ts) == Answers(ServeAll(c, Fresh, DatedAll(ts)))
  }

  /**
   Letting the keys expire is invisible, for every run whose dates lag at most so far behind, exactly
   when the time to live is at least a second and outlasts the time to fill the bucket by the lag.
   */
  lemma ExpiryInvisibleExactly(c: Config, lag: nat)
    requires c.Valid()
    ensures (forall ts: seq<Timed> :: Lagging(ts, lag) ==> Invisible(c, ts)) <==> Outlasts(c, lag)
  {
    if Outlasts(c, lag) {
      forall ts: seq<Timed> | Lagging(ts, lag) ensures Invisible(c, ts) {
        ExpiryKeepsAnswers(c, Keys(None, None), Fresh, if ts == [] then 0 else ts[0].clock, ts, lag);
      }
    } else if c.Ttl() < 1 {
      var ts := [Timed(1000 * lag, lag, 0)];
      assert Dates(ts[0], lag);
      EveryRunFails(c, ts);
    } else {
      var ts := ExpiryShows(c, lag);
    }
  }

  /** Without a lag that is, for each run there is, when twice the burst reaches the rate. */
  lemma ExpiryInvisibleWithoutLag(c: Config, ts: seq<Timed>)
    requires c.Valid() && Lagging(ts, 0) && ts != []
    ensures Invisible(c, ts) <==> 2 * c.burst >= c.rate
  {
    TtlFills(c);
    if Outlasts(c, 0) {
      ExpiryKeepsAnswers(c, Keys(None, None), Fresh, ts[0].clock, ts, 0);
    } else {
      EveryRunFails(c, ts);
    }
  }

  /** With a time to live of zero the first script run fails already. */
  lemma EveryRunFails(c: Config, ts: seq<Timed>)
    requires c.Valid() && c.Ttl() < 1 && ts != []
    ensures !Invisible(c, ts)
  {
    assert Replies(c, Keys(None, None), ts)[0] == Failed;
    assert |ServeAll(c, Fresh, DatedAll(ts))| > 0;
  }

  lemma LessRefilled(c: Config, lag: nat)
    requires c.Valid() && c.Ttl() >= 1 && c.burst > (c.Ttl() - lag) * c.rate
    ensures Minted(c, c.Ttl() - lag) < c.burst
  {
    MulStep(c.rate, 0, c.Ttl());
    assert c.rate * c.Ttl() <= 2 * c.burst;
  }

  lemma TwoReplies(c: Config, a: Timed, b: Timed)
    requires c.rate > 0
    ensures var k := EvalSpec(c, Keys(None, None), a.clock, a.now, a.n).1;
      var replies := Replies(c, Keys(None, None), [a, b]);
      |replies| == 2 && replies[1] == EvalSpec(c, k, b.clock, b.now, b.n).0
  {
    var k := EvalSpec(c, Keys(None, None), a.clock, a.now, a.n).1;
    assert [a, b][1..] == [b] && [b][1..] == [];
    assert Replies(c, k, [b]) == [EvalSpec(c, k, b.clock, b.now, b.n).0];
  }

  lemma TwoAnswers(c: Config, a: Timed, b: Timed)
    ensures var allowed := ServeAll(c, Fresh, DatedAll([a, b]));
      |allowed| == 2 && allowed[1] == Serve(c, Serve(c, Fresh, Dated(a)).1, Dated(b)).0
  {
    var bucket := Serve(c, Fresh, Dated(a)).1;
    assert DatedAll([a, b]) == [Dated(a), Dated(b)];
    assert [Dated(a), Dated(b)][1..] == [Dated(b)] && [Dated(b)][1..] == [];
    assert ServeAll(c, bucket, [Dated(b)]) == [Serve(c, bucket, Dated(b)).0];
  }

  /** The bucket is emptied, its keys expire, and a late date asks for more than was refilled. */
  lemma ExpiryShows(c: Config, lag: nat) returns (ts: seq<Timed>)
    requires c.Valid() && c.Ttl() >= 1 && c.burst > (c.Ttl() - lag) * c.rate
    ensures Lagging(ts, lag) && !Invisible(c, ts)
  {
    var ttl := c.Ttl();
    var first := Timed(1000 * lag, lag, c.burst);
    var second := Timed(1000 * (lag + ttl), ttl, c.burst);
    ts := [first, second];
    assert Dates(first, lag) && Dates(second, lag);
    MintedPositive(c, lag);
    MintedPositive(c, ttl);
    LessRefilled(c, lag);
    TwoReplies(c, first, second);
    TwoAnswers(c, first, second);
    assert Replies(c, Keys(None, None), ts)[1] == Granted;
    assert !ServeAll(c, Fresh, DatedAll(ts))[1];
  }
}
