/** The fixed-window limiter: one Redis key counts the calls of a window and expires with it. */
module PeriodLimit {
  import opened GoArith

  /** `period` in seconds; with `align`, windows end with calendar periods of the zone `offset` seconds east. */
  datatype Config = Config(period: int, quota: int, align: bool, offset: int) {
    ghost predicate Valid() {
      period > 0
    }

    /** The calls that a window lets through. The first one always gets through. */
    function Share(): int {
      Max(quota, 1)
    }
  }

  datatype Code = Allowed | HitQuota | OverQuota

  /** What the caller of Take gets: the code, or nothing when the script did not get through. */
  datatype Answer = Unknown | Known(code: Code)

  /** A call: when its caller read the clock, and when the script ran in Redis, in milliseconds of one clock. */
  datatype Call = Call(asked: int, clock: int)

  /** The seconds that a window lasts, as computed by a caller that reads the clock at `asked`. */
  function ExpireSeconds(c: Config, asked: int): int
    requires c.Valid()
  {
    if c.align then
      var unix := asked / 1000 + c.offset;
      c.period - Rem(unix, c.period)
    else
      c.period
  }

  /** When a window that the call opens ends. */
  function Deadline(c: Config, call: Call): int
    requires c.Valid()
  {
    call.clock + 1000 * ExpireSeconds(c, call.asked)
  }

  function CodeOf(c: Config, current: int): Code {
    if current == 1 then Allowed
    else if current < c.quota then Allowed
    else if current == c.quota then HitQuota
    else OverQuota
  }

  /** The counter in Redis, with the time it expires. */
  datatype Key = Absent | Counter(count: int, deadline: int)

  function TakeSpec(c: Config, k: Key, call: Call): (Code, Key)
    requires c.Valid()
  {
    if k.Counter? && call.clock < k.deadline then (CodeOf(c, k.count + 1), Counter(k.count + 1, k.deadline))
    else (CodeOf(c, 1), Counter(1, Deadline(c, call)))
  }

  class Limiter {
    const config: Config
    var key: Key

    constructor (config: Config)
      ensures this.config == config && key == Absent
    {
      this.config := config;
      key := Absent;
    }

    method IncrBy(clock: int, amount: int) returns (current: int)
      modifies this
      ensures current == amount + if old(key).Counter? && clock < old(key).deadline then old(key).count else 0
      ensures key.Counter? && key.count == current
      ensures old(key).Counter? && clock < old(key).deadline ==> key.deadline == old(key).deadline
    {
      if key.Counter? && clock < key.deadline {
        key := key.(count := key.count + amount);
      } else {
        // a new key has no expiry yet; the script gives it one before anybody else can look
        key := Counter(amount, clock);
      }
      current := key.count;
    }

    method Expire(clock: int, seconds: int)
      requires key.Counter?
      modifies this
      ensures key == old(key).(deadline := clock + 1000 * seconds)
    {
      key := key.(deadline := clock + 1000 * seconds);
    }

    /** The caller reads the clock at `asked`; the script runs at `clock`, if it gets through. */
    method Take(asked: int, clock: int, reachable: bool) returns (answer: Answer)
      requires config.Valid() && (key.Counter? ==> key.count >= 1)
      modifies this
      ensures key.Counter? ==> key.count >= 1
      ensures if reachable then answer.Known? && (answer.code, key) == TakeSpec(config, old(key), Call(asked, clock))
              else answer == Unknown && key == old(key)
    {
      if !reachable {
        return Unknown;
      }
      var window := ExpireSeconds(config, asked);
      var current := IncrBy(clock, 1);
      if current == 1 {
        Expire(clock, window);
        return Known(Allowed);
      } else if current < config.quota {
        return Known(Allowed);
      } else if current == config.quota {
        return Known(HitQuota);
      } else {
        return Known(OverQuota);
      }
    }
  }

  /** The codes of a run of calls. */
  function Run(c: Config, calls: seq<Call>): (r: (seq<Code>, Key))
    requires c.Valid()
    ensures |r.0| == |calls|
  {
    if calls == [] then ([], Absent)
    else
      var (codes, k) := Run(c, calls[..|calls| - 1]);
      var (code, k') := TakeSpec(c, k, calls[|calls| - 1]);
      (codes + [code], k')
  }

  /** The call that opened the window in which call `j` falls. */
  function Opener(c: Config, calls: seq<Call>, j: int): (o: int)
    requires c.Valid() && 0 <= j < |calls|
    ensures 0 <= o <= j
    decreases j
  {
    if j == 0 then 0
    else
      var o := Opener(c, calls, j - 1);
      if calls[j].clock < Deadline(c, calls[o]) then o else j
  }

  lemma {:induction false} OpenerPrefix(c: Config, calls: seq<Call>, n: int, j: int)
    requires c.Valid() && 0 <= j < n <= |calls|
    ensures Opener(c, calls[..n], j) == Opener(c, calls, j)
    decreases j
  {
    if j > 0 {
      OpenerPrefix(c, calls, n, j - 1);
    }
  }

  /** The counter is the place of the last call in its window. */
  lemma {:induction false} CounterIsPlace(c: Config, calls: seq<Call>)
    requires c.Valid() && calls != []
    ensures var o := Opener(c, calls, |calls| - 1);
      Run(c, calls).1 == Counter(|calls| - o, Deadline(c, calls[o]))
  {
    var n := |calls| - 1;
    if n > 0 {
      CounterIsPlace(c, calls[..n]);
      OpenerPrefix(c, calls, n, n - 1);
    } else {
      assert calls[..n] == [];
    }
  }

  lemma LastCode(c: Config, calls: seq<Call>)
    requires c.Valid() && calls != []
    ensures Run(c, calls).0[|calls| - 1] == CodeOf(c, |calls| - Opener(c, calls, |calls| - 1))
  {
    var n := |calls| - 1;
    if n > 0 {
      CounterIsPlace(c, calls[..n]);
      OpenerPrefix(c, calls, n, n - 1);
    } else {
      assert calls[..n] == [];
    }
  }

  lemma {:induction false} CodeAt(c: Config, calls: seq<Call>, j: int)
    requires c.Valid() && 0 <= j < |calls|
    ensures Run(c, calls).0[j] == CodeOf(c, j - Opener(c, calls, j) + 1)
    decreases |calls|
  {
    var n := |calls| - 1;
    if j < n {
      CodeAt(c, calls[..n], j);
      OpenerPrefix(c, calls, n, j);
    } else {
      LastCode(c, calls);
    }
  }

  predicate Permits(code: Code) {
    code != OverQuota
  }

  /** The calls permitted from `i` up to, not including, `j`. */
  function Permitted(c: Config, calls: seq<Call>, i: int, j: int): int
    requires c.Valid() && 0 <= i <= j <= |calls|
    decreases j
  {
    if i == j then 0
    else Permitted(c, calls, i, j - 1) + (if Permits(Run(c, calls).0[j - 1]) then 1 else 0)
  }

  /** A call is permitted by its place in its window alone; it hits the quota on the last permitted place. */
  lemma PermittedByPlace(c: Config, calls: seq<Call>, j: int)
    requires c.Valid() && 0 <= j < |calls|
    ensures Permits(Run(c, calls).0[j]) <==> j - Opener(c, calls, j) < c.Share()
    ensures Run(c, calls).0[j] == HitQuota <==> c.quota >= 2 && j - Opener(c, calls, j) == c.quota - 1
  {
    CodeAt(c, calls, j);
  }

  /** Calls from `i` to `j` that share one window. */
  ghost predicate OneWindow(c: Config, calls: seq<Call>, i: int, j: int, o: int)
    requires c.Valid() && 0 <= i <= j <= |calls|
  {
    forall k :: i <= k < j ==> Opener(c, calls, k) == o
  }

  /** A stretch of a window permits what the calls before it have left of the share. */
  lemma {:induction false} StretchOfWindow(c: Config, calls: seq<Call>, i: int, j: int, o: int)
    requires c.Valid() && 0 <= o <= i <= j <= |calls| && OneWindow(c, calls, i, j, o)
    ensures Permitted(c, calls, i, j) == Max(0, Min(j - o, c.Share()) - (i - o))
         || (i - o >= c.Share() && Permitted(c, calls, i, j) == 0)
    decreases j
  {
    if i < j {
      StretchOfWindow(c, calls, i, j - 1, o);
      PermittedByPlace(c, calls, j - 1);
    }
  }

  /** Every window permits all its calls up to the share, and no more. */
  lemma WindowPermitsShare(c: Config, calls: seq<Call>, o: int, j: int)
    requires c.Valid() && 0 <= o <= j <= |calls| && OneWindow(c, calls, o, j, o)
    ensures Permitted(c, calls, o, j) == Min(j - o, c.Share())
  {
    StretchOfWindow(c, calls, o, j, o);
  }

  ghost predicate InOrder(calls: seq<Call>) {
    forall i, j :: 0 <= i <= j < |calls| ==> calls[i].clock <= calls[j].clock
  }

  /** Calls before the deadline of a window fall into it. */
  lemma {:induction false} BeforeDeadline(c: Config, calls: seq<Call>, i: int, j: int)
    requires c.Valid() && InOrder(calls) && 0 <= i < j <= |calls|
    requires calls[j - 1].clock < Deadline(c, calls[Opener(c, calls, i)])
    ensures OneWindow(c, calls, i, j, Opener(c, calls, i))
    decreases j
  {
    if i < j - 1 {
      BeforeDeadline(c, calls, i, j - 1);
    }
  }

  /** The first call from `i` on that opens a new window, or `j`. */
  lemma NextOpener(c: Config, calls: seq<Call>, i: int, j: int) returns (k: int)
    requires c.Valid() && 0 <= i < j <= |calls|
    ensures i < k <= j && OneWindow(c, calls, i, k, Opener(c, calls, i))
    ensures k < j ==> Opener(c, calls, k) == k && calls[k].clock >= Deadline(c, calls[Opener(c, calls, i)])
  {
    k := i + 1;
    while k < j && Opener(c, calls, k) != k
      invariant i < k <= j && OneWindow(c, calls, i, k, Opener(c, calls, i))
    {
      k := k + 1;
    }
  }

  lemma {:induction false} PermittedSplit(c: Config, calls: seq<Call>, i: int, k: int, j: int)
    requires c.Valid() && 0 <= i <= k <= j <= |calls|
    ensures Permitted(c, calls, i, j) == Permitted(c, calls, i, k) + Permitted(c, calls, k, j)
    decreases j
  {
    if k < j {
      PermittedSplit(c, calls, i, k, j - 1);
    }
  }

  /** A stretch of calls that at most one new window is opened in. */
  lemma AtMostTwoWindows(c: Config, calls: seq<Call>, i: int, j: int)
    requires c.Valid() && InOrder(calls) && 0 <= i < j <= |calls|
    requires forall k :: i < k < j && Opener(c, calls, k) == k ==> calls[j - 1].clock < Deadline(c, calls[k])
    ensures Permitted(c, calls, i, j) <= 2 * c.Share()
    ensures Opener(c, calls, i) < i ==> Permitted(c, calls, i, j) <= 2 * c.Share() - 1
    ensures calls[j - 1].clock < Deadline(c, calls[Opener(c, calls, i)]) ==> Permitted(c, calls, i, j) <= c.Share()
  {
    var o := Opener(c, calls, i);
    var k := NextOpener(c, calls, i, j);
    PermittedSplit(c, calls, i, k, j);
    StretchOfWindow(c, calls, i, k, o);
    if k < j {
      BeforeDeadline(c, calls, k, j);
      WindowPermitsShare(c, calls, k, j);
      assert calls[k].clock <= calls[j - 1].clock;
    }
  }

  /** A stretch shorter than the period, when every window lasts a whole one. */
  lemma WholePeriodPermits(c: Config, calls: seq<Call>, i: int, j: int)
    requires c.Valid() && InOrder(calls) && 0 <= i < j <= |calls|
    requires forall k :: 0 <= k < |calls| ==> Deadline(c, calls[k]) == calls[k].clock + 1000 * c.period
    requires calls[j - 1].clock - calls[i].clock < 1000 * c.period
    ensures Permitted(c, calls, i, j) <= 2 * c.Share() - 1
  {
    forall k | i < k < j && Opener(c, calls, k) == k ensures calls[j - 1].clock < Deadline(c, calls[k]) {
      assert calls[i].clock <= calls[k].clock;
    }
    AtMostTwoWindows(c, calls, i, j);
  }

  /** Without alignment, no stretch shorter than the period permits twice the share. */
  lemma PeriodPermits(c: Config, calls: seq<Call>, i: int, j: int)
    requires c.Valid() && !c.align && InOrder(calls) && 0 <= i < j <= |calls|
    requires calls[j - 1].clock - calls[i].clock < 1000 * c.period
    ensures Permitted(c, calls, i, j) <= 2 * c.Share() - 1
  {
    WholePeriodPermits(c, calls, i, j);
  }

  /** `n` windows of the share each. */
  function Shares(c: Config, n: nat): int {
    if n == 0 then 0 else Shares(c, n - 1) + c.Share()
  }

  lemma {:induction false} SharesIsProduct(c: Config, n: nat)
    ensures Shares(c, n) == n * c.Share()
  {
    if n > 0 {
      SharesIsProduct(c, n - 1);
      assert (n - 1) * c.Share() + c.Share() == n * c.Share();
    }
  }

  lemma AtLeastASecond(c: Config, call: Call)
    requires c.Valid()
    ensures Deadline(c, call) >= call.clock + 1000
  {
    var unix := call.asked / 1000 + c.offset;
    assert c.align ==> Rem(unix, c.period) < c.period;
  }

  /**
   Aligned or not, and however late the script runs after its caller has read the clock: a stretch
   shorter than `n` seconds permits at most `n` times the share when it begins with a window, and
   what is left of one window more otherwise.
   */
  lemma {:induction false} SecondsPermit(c: Config, calls: seq<Call>, i: int, j: int, n: nat)
    requires c.Valid() && InOrder(calls) && 0 <= i < j <= |calls|
    requires calls[j - 1].clock - calls[i].clock < 1000 * n
    ensures Opener(c, calls, i) == i ==> Permitted(c, calls, i, j) <= Shares(c, n)
    ensures Permitted(c, calls, i, j) <= Shares(c, n + 1) - (if Opener(c, calls, i) < i then 1 else 0)
    decreases j - i
  {
    var o := Opener(c, calls, i);
    var k := NextOpener(c, calls, i, j);
    assert calls[i].clock <= calls[j - 1].clock;
    PermittedSplit(c, calls, i, k, j);
    StretchOfWindow(c, calls, i, k, o);
    SharesGrow(c, n);
    if k < j {
      AtLeastASecond(c, calls[o]);
      assert calls[i].clock <= calls[k].clock <= calls[j - 1].clock;
      SecondsPermit(c, calls, k, j, if o == i then n - 1 else n);
    }
  }

  lemma {:induction false} SharesGrow(c: Config, n: nat)
    ensures Shares(c, n + 1) == Shares(c, n) + c.Share() && Shares(c, n) >= 0
    ensures n > 0 ==> Shares(c, n) >= c.Share()
  {
    if n > 0 {
      SharesGrow(c, n - 1);
    }
  }
}
