/** What the period limiter permits in any stretch of time and in calendar periods, with aligned windows. */
module PeriodCalendar {
  import opened GoArith
  import opened PeriodLimit

  /** The calendar period a time belongs to. */
  function CalendarPeriod(c: Config, clock: int): int
    requires c.Valid()
  {
    (clock / 1000 + c.offset) / c.period
  }

  /** The time, in milliseconds, at which a calendar period begins. */
  function CalendarStart(c: Config, n: int): int {
    1000 * (c.period * n - c.offset)
  }

  /**
   An aligned window overruns the calendar period in which the clock was read by the fraction of a
   second at that time, and by the time until the script ran.
   */
  lemma AlignedDeadline(c: Config, call: Call)
    requires c.Valid() && c.align && call.asked / 1000 + c.offset >= 0
    ensures Deadline(c, call)
         == CalendarStart(c, CalendarPeriod(c, call.asked) + 1) + call.asked % 1000 + (call.clock - call.asked)
  {
    var unix := call.asked / 1000 + c.offset;
    var n := unix / c.period;
    assert Rem(unix, c.period) == unix - c.period * n;
    assert c.period * (n + 1) == c.period * n + c.period;
    assert call.asked == 1000 * (call.asked / 1000) + call.asked % 1000;
  }

  lemma CalendarBounds(c: Config, clock: int)
    requires c.Valid()
    ensures CalendarStart(c, CalendarPeriod(c, clock)) <= clock < CalendarStart(c, CalendarPeriod(c, clock) + 1)
  {
    var unix := clock / 1000 + c.offset;
    var n := unix / c.period;
    assert c.period * n <= unix < c.period * n + c.period;
    assert c.period * (n + 1) == c.period * n + c.period;
  }

  lemma NextPeriod(c: Config, n: int)
    ensures CalendarStart(c, n + 1) == CalendarStart(c, n) + 1000 * c.period
  {
    assert c.period * (n + 1) == c.period * n + c.period;
  }

  /** A time from the start of one calendar period on, and before the start of another. */
  lemma PeriodsBetween(c: Config, lo: int, clock: int, hi: int)
    requires c.Valid()
    ensures CalendarStart(c, lo) <= clock ==> lo <= CalendarPeriod(c, clock)
    ensures clock < CalendarStart(c, hi) ==> CalendarPeriod(c, clock) < hi
  {
    var n := CalendarPeriod(c, clock);
    CalendarBounds(c, clock);
    assert CalendarStart(c, n) == 1000 * (c.period * n - c.offset);
    MulStep(c.period, n + 1, lo);
    MulStep(c.period, hi, n);
    MulStep(c.period, n, lo);
  }

  /** Calls in the order in which their scripts ran, which is never before their callers read the clock. */
  ghost predicate Dated(c: Config, calls: seq<Call>) {
    && InOrder(calls)
    && (forall i :: 0 <= i < |calls| ==> calls[i].asked <= calls[i].clock)
    && forall i :: 0 <= i < |calls| ==> calls[i].asked / 1000 + c.offset >= 0
  }

  /** Scripts run in the calendar period in which their callers read the clock. */
  ghost predicate Prompt(c: Config, calls: seq<Call>)
    requires c.Valid()
  {
    forall i :: 0 <= i < |calls| ==> CalendarPeriod(c, calls[i].asked) == CalendarPeriod(c, calls[i].clock)
  }

  /** A window opened in time lasts to the end of its calendar period. */
  lemma OutlastsPeriod(c: Config, call: Call)
    requires c.Valid() && c.align && call.asked / 1000 + c.offset >= 0 && call.asked <= call.clock
    requires CalendarPeriod(c, call.asked) == CalendarPeriod(c, call.clock)
    ensures CalendarStart(c, CalendarPeriod(c, call.clock) + 1) <= Deadline(c, call)
  {
    AlignedDeadline(c, call);
  }

  lemma PeriodNotBefore(c: Config, a: int, b: int)
    requires c.Valid() && a <= b
    ensures CalendarPeriod(c, a) <= CalendarPeriod(c, b)
  {
    QuotientMonotone(a, b, 1000);
    QuotientMonotone(a / 1000 + c.offset, b / 1000 + c.offset, c.period);
  }

  lemma SamePeriodBetween(c: Config, a: int, b: int, d: int)
    requires c.Valid() && a <= b <= d && CalendarPeriod(c, a) == CalendarPeriod(c, d)
    ensures CalendarPeriod(c, b) == CalendarPeriod(c, a)
  {
    PeriodNotBefore(c, a, b);
    PeriodNotBefore(c, b, d);
  }

  /** Of two windows opened in time, one that ends before the other opens is of an earlier calendar period. */
  lemma LaterWindow(c: Config, calls: seq<Call>, k: int, l: int)
    requires c.Valid() && c.align && Dated(c, calls) && Prompt(c, calls) && 0 <= k < l < |calls|
    requires Deadline(c, calls[k]) <= calls[l].clock
    ensures CalendarPeriod(c, calls[k].clock) < CalendarPeriod(c, calls[l].clock)
  {
    OutlastsPeriod(c, calls[k]);
    PeriodsBetween(c, CalendarPeriod(c, calls[k].clock) + 1, calls[l].clock, 0);
  }

  /** A call in the calendar period of an earlier one that opens a window falls into that window. */
  lemma SamePeriodSameWindow(c: Config, calls: seq<Call>, k: int, clock: int)
    requires c.Valid() && c.align && Dated(c, calls) && Prompt(c, calls) && 0 <= k < |calls|
    requires CalendarPeriod(c, clock) == CalendarPeriod(c, calls[k].clock)
    ensures clock < Deadline(c, calls[k])
  {
    OutlastsPeriod(c, calls[k]);
    CalendarBounds(c, clock);
  }

  /**
   With alignment and scripts that run in time, a calendar period permits less than twice the share,
   and no more than the share when the window at its beginning was opened within it or ends with its own.
   */
  lemma CalendarPermits(c: Config, calls: seq<Call>, i: int, j: int)
    requires c.Valid() && c.align && Dated(c, calls) && Prompt(c, calls) && 0 <= i < j <= |calls|
    requires CalendarPeriod(c, calls[i].clock) == CalendarPeriod(c, calls[j - 1].clock)
    ensures Permitted(c, calls, i, j) <= 2 * c.Share() - 1
    ensures var o := calls[Opener(c, calls, i)];
      CalendarPeriod(c, o.clock) == CalendarPeriod(c, calls[i].clock)
      || Deadline(c, o) == CalendarStart(c, CalendarPeriod(c, o.clock) + 1)
      ==> Permitted(c, calls, i, j) <= c.Share()
  {
    var o := Opener(c, calls, i);
    if Deadline(c, calls[o]) == CalendarStart(c, CalendarPeriod(c, calls[o].clock) + 1) {
      EndsWithPeriod(c, calls, i);
    }
    if CalendarPeriod(c, calls[o].clock) == CalendarPeriod(c, calls[i].clock) {
      SamePeriodSameWindow(c, calls, o, calls[j - 1].clock);
    }
    forall k | i <= k < j && Opener(c, calls, k) == k ensures calls[j - 1].clock < Deadline(c, calls[k]) {
      SamePeriodBetween(c, calls[i].clock, calls[k].clock, calls[j - 1].clock);
      SamePeriodSameWindow(c, calls, k, calls[j - 1].clock);
    }
    AtMostTwoWindows(c, calls, i, j);
  }

  /** A window that ends with its calendar period holds only calls of that period. */
  lemma EndsWithPeriod(c: Config, calls: seq<Call>, i: int)
    requires c.Valid() && InOrder(calls) && 0 <= i < |calls|
    requires var o := calls[Opener(c, calls, i)]; Deadline(c, o) == CalendarStart(c, CalendarPeriod(c, o.clock) + 1)
    ensures CalendarPeriod(c, calls[Opener(c, calls, i)].clock) == CalendarPeriod(c, calls[i].clock)
  {
    var o := Opener(c, calls, i);
    SameWindow(c, calls, i);
    PeriodNotBefore(c, calls[o].clock, calls[i].clock);
    if o < i {
      PeriodsBetween(c, 0, calls[i].clock, CalendarPeriod(c, calls[o].clock) + 1);
    }
  }

  /** A call is made before the deadline of its window, unless it opens it. */
  lemma SameWindow(c: Config, calls: seq<Call>, j: int)
    requires c.Valid() && 0 <= j < |calls|
    ensures Opener(c, calls, j) == j || calls[j].clock < Deadline(c, calls[Opener(c, calls, j)])
  {
  }

  /**
   With alignment windows can be shorter than the period, so a stretch shorter than the period can
   meet three of them: what is left of one, and two more in the calendar periods it crosses.
   */
  lemma AlignedPermits(c: Config, calls: seq<Call>, i: int, j: int)
    requires c.Valid() && c.align && Dated(c, calls) && Prompt(c, calls) && 0 <= i < j <= |calls|
    requires calls[j - 1].clock - calls[i].clock < 1000 * c.period
    ensures Permitted(c, calls, i, j) <= 3 * c.Share() - 1
  {
    var o := Opener(c, calls, i);
    var k := NextOpener(c, calls, i, j);
    PermittedSplit(c, calls, i, k, j);
    StretchOfWindow(c, calls, i, k, o);
    if k < j {
      assert calls[i].clock <= calls[k].clock <= calls[j - 1].clock;
      if o == i {
        LaterWindow(c, calls, i, k);
        AtMostOneMore(c, calls, i, k, j);
      } else {
        AtMostTwoMore(c, calls, k, j);
      }
    }
  }

  /** Times less than a period apart are at most one calendar period apart. */
  lemma NearbyPeriods(c: Config, a: int, b: int)
    requires c.Valid() && a <= b < a + 1000 * c.period
    ensures CalendarPeriod(c, a) <= CalendarPeriod(c, b) <= CalendarPeriod(c, a) + 1
  {
    PeriodNotBefore(c, a, b);
    CalendarBounds(c, a);
    NextPeriod(c, CalendarPeriod(c, a) + 1);
    PeriodsBetween(c, 0, b, CalendarPeriod(c, a) + 2);
  }

  /** Once a window opens in a later calendar period than the stretch began in, it lasts to the end of it. */
  lemma AtMostOneMore(c: Config, calls: seq<Call>, i: int, k: int, j: int)
    requires c.Valid() && c.align && Dated(c, calls) && Prompt(c, calls) && 0 <= i < k < j <= |calls|
    requires calls[j - 1].clock - calls[i].clock < 1000 * c.period && Opener(c, calls, k) == k
    requires CalendarPeriod(c, calls[i].clock) < CalendarPeriod(c, calls[k].clock)
    ensures Permitted(c, calls, k, j) <= c.Share()
  {
    assert calls[i].clock <= calls[k].clock <= calls[j - 1].clock;
    NearbyPeriods(c, calls[i].clock, calls[j - 1].clock);
    PeriodNotBefore(c, calls[k].clock, calls[j - 1].clock);
    SamePeriodSameWindow(c, calls, k, calls[j - 1].clock);
    BeforeDeadline(c, calls, k, j);
    WindowPermitsShare(c, calls, k, j);
  }

  lemma AtMostTwoMore(c: Config, calls: seq<Call>, k: int, j: int)
    requires c.Valid() && c.align && Dated(c, calls) && Prompt(c, calls) && 0 <= k < j <= |calls|
    requires calls[j - 1].clock - calls[k].clock < 1000 * c.period && Opener(c, calls, k) == k
    ensures Permitted(c, calls, k, j) <= 2 * c.Share()
  {
    var l := NextOpener(c, calls, k, j);
    PermittedSplit(c, calls, k, l, j);
    WindowPermitsShare(c, calls, k, l);
    if l < j {
      LaterWindow(c, calls, k, l);
      AtMostOneMore(c, calls, k, l, j);
    }
  }

  /** A call whose script runs at once. */
  function AtOnce(clock: int): Call {
    Call(clock, clock)
  }

  /** A call read `r` seconds and some milliseconds into a calendar period: its window lasts to the period's end. */
  lemma ReadIn(c: Config, n: int, r: int, ms: int) returns (asked: int)
    requires c.Valid() && c.align && n >= 0 && 0 <= r < c.period && 0 <= ms < 1000
    ensures asked == CalendarStart(c, n) + 1000 * r + ms
    ensures CalendarPeriod(c, asked) == n && asked / 1000 + c.offset >= 0
    ensures ExpireSeconds(c, asked) == c.period - r
  {
    asked := CalendarStart(c, n) + 1000 * r + ms;
    var unix := c.period * n + r;
    assert c.period * n >= 0;
    QuotientIs(asked, 1000, unix - c.offset);
    QuotientIs(unix, c.period, n);
    assert Rem(unix, c.period) == r;
  }

  /** Calls `from` up to, not including, `to` fall into the window that the first of them opens. */
  ghost predicate Opens(c: Config, calls: seq<Call>, from: int, to: int)
    requires c.Valid() && 0 <= from < to <= |calls|
  {
    && (from > 0 ==> Deadline(c, calls[Opener(c, calls, from - 1)]) <= calls[from].clock)
    && calls[to - 1].clock < Deadline(c, calls[from])
  }

  lemma OpensWindow(c: Config, calls: seq<Call>, from: int, to: int)
    requires c.Valid() && InOrder(calls) && 0 <= from < to <= |calls| && Opens(c, calls, from, to)
    ensures OneWindow(c, calls, from, to, from) && Opener(c, calls, to - 1) == from
    ensures Permitted(c, calls, from, to) == Min(to - from, c.Share())
  {
    BeforeDeadline(c, calls, from, to);
    WindowPermitsShare(c, calls, from, to);
  }

  /** Two windows of `q` calls each, all but the first of them counted. */
  lemma TwoWindows(c: Config, calls: seq<Call>, q: int)
    requires c.Valid() && InOrder(calls) && q == c.quota >= 2 && |calls| == 2 * q
    requires calls[q - 1].clock < Deadline(c, calls[0]) <= calls[q].clock
    requires calls[2 * q - 1].clock < Deadline(c, calls[q])
    ensures Permitted(c, calls, 1, 2 * q) == 2 * q - 1
  {
    OpensWindow(c, calls, 0, q);
    OpensWindow(c, calls, q, 2 * q);
    StretchOfWindow(c, calls, 1, q, 0);
    PermittedSplit(c, calls, 1, q, 2 * q);
  }

  /** Three of them. */
  lemma ThreeWindows(c: Config, calls: seq<Call>, q: int)
    requires c.Valid() && InOrder(calls) && q == c.quota >= 2 && |calls| == 3 * q
    requires calls[q - 1].clock < Deadline(c, calls[0]) <= calls[q].clock
    requires calls[2 * q - 1].clock < Deadline(c, calls[q]) <= calls[2 * q].clock
    requires calls[3 * q - 1].clock < Deadline(c, calls[2 * q])
    ensures Permitted(c, calls, 1, 3 * q) == 3 * q - 1
  {
    OpensWindow(c, calls, 0, q);
    OpensWindow(c, calls, q, 2 * q);
    OpensWindow(c, calls, 2 * q, 3 * q);
    StretchOfWindow(c, calls, 1, q, 0);
    PermittedSplit(c, calls, 1, q, 3 * q);
    PermittedSplit(c, calls, q, 2 * q, 3 * q);
  }

  /** `q` calls in a row of which the first is made at one time and the others at another. */
  function Burst(q: nat, first: int, others: int): (r: seq<Call>)
    ensures |r| == q
    ensures forall i :: 0 <= i < q ==> r[i] == AtOnce(if i == 0 then first else others)
  {
    seq(q, i => AtOnce(if i == 0 then first else others))
  }

  lemma OneAfterOther(c: Config, a: seq<Call>, b: seq<Call>)
    requires Dated(c, a) && Dated(c, b) && (a != [] && b != [] ==> a[|a| - 1].clock <= b[0].clock)
    ensures Dated(c, a + b)
  {
    forall i, j | 0 <= i <= j < |a + b| ensures (a + b)[i].clock <= (a + b)[j].clock {
      if i < |a| <= j {
        assert a[i].clock <= a[|a| - 1].clock && b[0].clock <= b[j - |a|].clock;
      }
    }
  }

  lemma BothPrompt(c: Config, a: seq<Call>, b: seq<Call>)
    requires c.Valid() && Prompt(c, a) && Prompt(c, b)
    ensures Prompt(c, a + b)
  {
  }

  lemma AtOnceIsPrompt(c: Config, q: nat, first: int, others: int)
    requires c.Valid() && first <= others && first / 1000 + c.offset >= 0
    ensures Dated(c, Burst(q, first, others)) && Prompt(c, Burst(q, first, others))
  {
    QuotientMonotone(first, others, 1000);
  }

  /** Two bursts, one after the other. */
  lemma TwoBursts(c: Config, q: int, t0: int, t1: int, t2: int, t3: int) returns (calls: seq<Call>)
    requires c.Valid() && q >= 2 && t0 <= t1 <= t2 <= t3 && t0 / 1000 + c.offset >= 0
    ensures Dated(c, calls) && Prompt(c, calls) && |calls| == 2 * q
    ensures calls[0] == AtOnce(t0) && calls[1] == calls[q - 1] == AtOnce(t1)
    ensures calls[q] == AtOnce(t2) && calls[2 * q - 1] == AtOnce(t3)
  {
    var a, b := Burst(q, t0, t1), Burst(q, t2, t3);
    QuotientMonotone(t0, t2, 1000);
    AtOnceIsPrompt(c, q, t0, t1);
    AtOnceIsPrompt(c, q, t2, t3);
    OneAfterOther(c, a, b);
    BothPrompt(c, a, b);
    calls := a + b;
  }

  /** And one more, all at one time. */
  lemma ThreeBursts(c: Config, q: int, t0: int, t1: int, t2: int, t3: int) returns (calls: seq<Call>)
    requires c.Valid() && q >= 2 && t0 <= t1 <= t2 <= t3 && t0 / 1000 + c.offset >= 0
    ensures Dated(c, calls) && Prompt(c, calls) && |calls| == 3 * q
    ensures calls[0] == AtOnce(t0) && calls[1] == calls[q - 1] == AtOnce(t1)
    ensures calls[q] == calls[2 * q - 1] == AtOnce(t2) && calls[2 * q] == calls[3 * q - 1] == AtOnce(t3)
  {
    var a := TwoBursts(c, q, t0, t1, t2, t2);
    var b := Burst(q, t3, t3);
    QuotientMonotone(t0, t3, 1000);
    AtOnceIsPrompt(c, q, t3, t3);
    OneAfterOther(c, a, b);
    BothPrompt(c, a, b);
    calls := a + b;
  }

  /**
   One call in the last second of calendar period `n`, the rest of the quota half a second into the
   next period, a full quota after that window, and another right after the end of that period.
   */
  lemma CrowdPermits(c: Config, n: int) returns (calls: seq<Call>)
    requires c.Valid() && c.align && c.period >= 2 && c.quota >= 2 && n >= 0
    ensures Dated(c, calls) && Prompt(c, calls) && |calls| == 3 * c.quota
    ensures calls[3 * c.quota - 1].clock - calls[1].clock < 1000 * c.period
    ensures Permitted(c, calls, 1, 3 * c.quota) == 3 * c.quota - 1
  {
    var q := c.quota;
    var t0 := ReadIn(c, n, c.period - 1, 900);
    var t1 := ReadIn(c, n + 1, 0, 500);
    var t2 := ReadIn(c, n + 1, 1, 0);
    var t3 := ReadIn(c, n + 2, 0, 100);
    NextPeriod(c, n);
    NextPeriod(c, n + 1);
    calls := ThreeBursts(c, q, t0, t1, t2, t3);
    ThreeWindows(c, calls, q);
  }

  /** Calls of a run within less than a period. */
  ghost predicate Stretch(c: Config, calls: seq<Call>, i: int, j: int) {
    Dated(c, calls) && 0 <= i < j <= |calls| && calls[j - 1].clock - calls[i].clock < 1000 * c.period
  }

  /** So the bound for aligned windows is reached. */
  lemma AlignedBoundReached(c: Config)
    requires c.Valid() && c.align && c.period >= 2 && c.quota >= 2
    ensures exists calls, i, j ::
      Stretch(c, calls, i, j) && Prompt(c, calls) && Permitted(c, calls, i, j) == 3 * c.Share() - 1
  {
    var calls := CrowdPermits(c, 0);
    assert Stretch(c, calls, 1, |calls|);
  }

  /** No run permits more than twice the share in less than a period. */
  ghost predicate KeepsPeriodBound(c: Config)
    requires c.Valid()
  {
    forall calls, i, j :: Stretch(c, calls, i, j) && Prompt(c, calls) ==> Permitted(c, calls, i, j) <= 2 * c.Share()
  }

  /** That holds of windows that are always a whole period long, and of a quota of one, and of no others. */
  lemma PeriodBoundExactly(c: Config)
    requires c.Valid()
    ensures KeepsPeriodBound(c) <==> !c.align || c.period == 1 || c.quota <= 1
  {
    if !c.align || c.period == 1 || c.quota <= 1 {
      forall calls, i, j | Stretch(c, calls, i, j) && Prompt(c, calls)
        ensures Permitted(c, calls, i, j) <= 2 * c.Share()
      {
        PeriodBoundKept(c, calls, i, j);
      }
    } else {
      AlignedBoundReached(c);
    }
  }

  lemma PeriodBoundKept(c: Config, calls: seq<Call>, i: int, j: int)
    requires c.Valid() && Stretch(c, calls, i, j) && Prompt(c, calls)
    requires !c.align || c.period == 1 || c.quota <= 1
    ensures Permitted(c, calls, i, j) <= 2 * c.Share()
  {
    if c.align && c.period != 1 {
      AlignedPermits(c, calls, i, j);
    } else {
      WholePeriods(c, calls);
      WholePeriodPermits(c, calls, i, j);
    }
  }

  lemma WholePeriods(c: Config, calls: seq<Call>)
    requires c.Valid() && (!c.align || c.period == 1)
    ensures forall k :: 0 <= k < |calls| ==> Deadline(c, calls[k]) == calls[k].clock + 1000 * c.period
  {
  }

  lemma {:induction false} PermittedPrefix(c: Config, calls: seq<Call>, n: int, i: int, j: int)
    requires c.Valid() && 0 <= i <= j <= n <= |calls|
    ensures Permitted(c, calls[..n], i, j) == Permitted(c, calls, i, j)
    decreases j
  {
    if i < j {
      PermittedPrefix(c, calls, n, i, j - 1);
      PermittedByPlace(c, calls[..n], j - 1);
      PermittedByPlace(c, calls, j - 1);
      OpenerPrefix(c, calls, n, j - 1);
    }
  }

  /** `q` calls whose callers read the clock at `asked` and whose scripts run later. */
  function LateBurst(q: nat, asked: int, first: int, others: int): (r: seq<Call>)
    ensures |r| == q
    ensures forall i :: 0 <= i < q ==> r[i] == Call(asked, if i == 0 then first else others)
  {
    seq(q, i => Call(asked, if i == 0 then first else others))
  }

  /** A run all of whose calls are permitted, and whose last window ends at `ends`. */
  ghost predicate AllPermitted(c: Config, calls: seq<Call>, ends: int)
    requires c.Valid()
  {
    && Dated(c, calls) && calls != []
    && Permitted(c, calls, 0, |calls|) == |calls|
    && Deadline(c, calls[Opener(c, calls, |calls| - 1)]) == ends
    && calls[|calls| - 1].clock <= ends
  }

  /** Calls that come after the end of the last window and fall into the one they open. */
  lemma AppendedWindow(c: Config, calls: seq<Call>, more: seq<Call>)
    requires c.Valid() && calls != [] && more != [] && InOrder(calls + more)
    requires Deadline(c, calls[Opener(c, calls, |calls| - 1)]) <= more[0].clock
    requires more[|more| - 1].clock < Deadline(c, more[0])
    ensures var all := calls + more;
      && Opener(c, all, |all| - 1) == |calls|
      && Permitted(c, all, 0, |all|) == Permitted(c, calls, 0, |calls|) + Min(|more|, c.Share())
  {
    var all, n := calls + more, |calls|;
    assert all[..n] == calls;
    OpenerPrefix(c, all, n, n - 1);
    PermittedPrefix(c, all, n, 0, n);
    OpensWindow(c, all, n, |all|);
    PermittedSplit(c, all, 0, n, |all|);
  }

  lemma LateBurstDated(c: Config, q: nat, asked: int, first: int, others: int)
    requires c.Valid() && asked <= first <= others && asked / 1000 + c.offset >= 0
    ensures Dated(c, LateBurst(q, asked, first, others))
  {
  }

  /** One more window of a second, full of calls, right after it. */
  lemma OneMoreWindow(c: Config, calls: seq<Call>, ends: int, asked: int)
    requires c.Valid() && AllPermitted(c, calls, ends)
    requires ExpireSeconds(c, asked) == 1 && asked <= ends && asked / 1000 + c.offset >= 0
    ensures AllPermitted(c, calls + LateBurst(c.Share(), asked, ends, ends), ends + 1000)
  {
    var more := LateBurst(c.Share(), asked, ends, ends);
    LateBurstDated(c, c.Share(), asked, ends, ends);
    OneAfterOther(c, calls, more);
    WindowAdds(c, calls, more, ends);
  }

  lemma WindowAdds(c: Config, calls: seq<Call>, more: seq<Call>, ends: int)
    requires c.Valid() && AllPermitted(c, calls, ends) && Dated(c, calls + more)
    requires |more| == c.Share() && ends <= more[0].clock <= more[|more| - 1].clock < Deadline(c, more[0])
    ensures AllPermitted(c, calls + more, Deadline(c, more[0]))
  {
    AppendedWindow(c, calls, more);
    assert (calls + more)[|calls|] == more[0];
    assert (calls + more)[|calls| + |more| - 1] == more[|more| - 1];
  }

  /** The last of some calls comes at most at `last`, and the second, if any, at the end of a window's second. */
  predicate Spread(calls: seq<Call>, start: int, last: int) {
    calls != [] && calls[|calls| - 1].clock <= last && (|calls| >= 2 ==> start + 999 <= calls[1].clock)
  }

  lemma FirstLateWindow(c: Config, asked: int, start: int) returns (calls: seq<Call>)
    requires c.Valid() && ExpireSeconds(c, asked) == 1 && asked <= start && asked / 1000 + c.offset >= 0
    ensures AllPermitted(c, calls, start + 1000) && |calls| == c.Share() && Spread(calls, start, start + 999)
  {
    calls := LateBurst(c.Share(), asked, start, start + 999);
    OpensWindow(c, calls, 0, |calls|);
  }

  lemma SpreadOn(calls: seq<Call>, start: int, last: int, q: nat, asked: int, ends: int)
    requires Spread(calls, start, last) && q > 0 && start + 999 <= ends
    ensures Spread(calls + LateBurst(q, asked, ends, ends), start, ends)
  {
    var more := LateBurst(q, asked, ends, ends);
    assert (calls + more)[|calls| + q - 1] == more[q - 1];
    assert (calls + more)[1] == if |calls| >= 2 then calls[1] else more[0];
  }

  /** Windows of a second one after the other, of which the callers all read the clock before they began. */
  lemma {:induction false} LateWindows(c: Config, asked: int, start: int, n: nat) returns (calls: seq<Call>)
    requires c.Valid() && ExpireSeconds(c, asked) == 1 && asked <= start && asked / 1000 + c.offset >= 0
    ensures AllPermitted(c, calls, start + 1000 * (n + 1)) && |calls| == Shares(c, n + 1)
    ensures Spread(calls, start, start + (if n == 0 then 999 else 1000 * n))
    decreases n
  {
    SharesGrow(c, n);
    if n == 0 {
      calls := FirstLateWindow(c, asked, start);
    } else {
      var ends := start + 1000 * n;
      calls := LateWindows(c, asked, start, n - 1);
      OneMoreWindow(c, calls, ends, asked);
      SpreadOn(calls, start, start + (if n == 1 then 999 else 1000 * (n - 1)), c.Share(), asked, ends);
      calls := calls + LateBurst(c.Share(), asked, ends, ends);
    }
  }

  /** As many windows as the period has seconds, and what is left of one more, in less than a period. */
  lemma LateCrowdPermits(c: Config) returns (calls: seq<Call>)
    requires c.Valid() && c.align && c.period >= 2
    ensures Dated(c, calls) && |calls| == Shares(c, c.period + 1) >= 2
    ensures calls[|calls| - 1].clock - calls[1].clock < 1000 * c.period
    ensures Permitted(c, calls, 1, |calls|) == Shares(c, c.period + 1) - 1
  {
    var asked := ReadIn(c, 0, c.period - 1, 999);
    SharesGrow(c, c.period);
    SharesGrow(c, c.period - 1);
    calls := LateWindows(c, asked, asked, c.period);
    PermittedSplit(c, calls, 0, 1, |calls|);
    AtMostAll(c, calls, 0, 1);
    AtMostAll(c, calls, 1, |calls|);
  }

  lemma {:induction false} AtMostAll(c: Config, calls: seq<Call>, i: int, j: int)
    requires c.Valid() && 0 <= i <= j <= |calls|
    ensures Permitted(c, calls, i, j) <= j - i
    decreases j
  {
    if i < j {
      AtMostAll(c, calls, i, j - 1);
    }
  }

  /** So the bound for late scripts, a window for each second and what is left of one more, is reached. */
  lemma LateBoundReached(c: Config)
    requires c.Valid() && c.align && c.period >= 2
    ensures exists calls, i, j ::
      Stretch(c, calls, i, j) && Permitted(c, calls, i, j) == Shares(c, c.period + 1) - 1
  {
    var calls := LateCrowdPermits(c);
    assert Stretch(c, calls, 1, |calls|);
  }

  /** No run permits more than twice the share in less than a period, however late scripts may run. */
  ghost predicate KeepsLatePeriodBound(c: Config)
    requires c.Valid()
  {
    forall calls, i, j :: Stretch(c, calls, i, j) ==> Permitted(c, calls, i, j) <= 2 * c.Share()
  }

  /** Late scripts spare only a quota of one in a period of two seconds. */
  lemma LatePeriodBoundExactly(c: Config)
    requires c.Valid()
    ensures KeepsLatePeriodBound(c) <==> !c.align || c.period == 1 || (c.quota <= 1 && c.period == 2)
  {
    if !c.align || c.period == 1 || (c.quota <= 1 && c.period == 2) {
      forall calls, i, j | Stretch(c, calls, i, j) ensures Permitted(c, calls, i, j) <= 2 * c.Share() {
        LatePeriodBoundKept(c, calls, i, j);
      }
    } else {
      LateBoundReached(c);
      ManyShares(c);
    }
  }

  lemma LatePeriodBoundKept(c: Config, calls: seq<Call>, i: int, j: int)
    requires c.Valid() && Stretch(c, calls, i, j)
    requires !c.align || c.period == 1 || (c.quota <= 1 && c.period == 2)
    ensures Permitted(c, calls, i, j) <= 2 * c.Share()
  {
    if c.align && c.period != 1 {
      SecondsPermit(c, calls, i, j, 2);
      SharesIsProduct(c, 2);
      SharesIsProduct(c, 3);
    } else {
      WholePeriods(c, calls);
      WholePeriodPermits(c, calls, i, j);
    }
  }

  lemma ManyShares(c: Config)
    requires c.Valid() && c.period >= 2 && (c.quota >= 2 || c.period >= 3)
    ensures Shares(c, c.period + 1) - 1 > 2 * c.Share()
  {
    SharesGrow(c, c.period);
    SharesGrow(c, c.period - 1);
    SharesGrow(c, c.period - 2);
  }

  /** Calls of one calendar period. */
  ghost predicate InOnePeriod(c: Config, calls: seq<Call>, i: int, j: int)
    requires c.Valid()
  {
    0 <= i < j <= |calls| && CalendarPeriod(c, calls[i].clock) == CalendarPeriod(c, calls[j - 1].clock)
  }

  /** A run permits no more than the share of calls within any calendar period. */
  ghost predicate KeepsCalendarQuota(c: Config, calls: seq<Call>)
    requires c.Valid()
  {
    forall i, j :: InOnePeriod(c, calls, i, j) ==> Permitted(c, calls, i, j) <= c.Share()
  }

  /**
   One call half a second into the last second of calendar period `n`, the rest of the quota at the
   start of the next period, and a full quota once that window is over: twice the quota, less one, in a
   single calendar period.
   */
  lemma OverrunPermits(c: Config, n: int) returns (calls: seq<Call>)
    requires c.Valid() && c.align && c.quota >= 2 && n >= 0
    ensures Dated(c, calls) && Prompt(c, calls) && |calls| == 2 * c.quota
    ensures CalendarPeriod(c, calls[1].clock) == CalendarPeriod(c, calls[2 * c.quota - 1].clock) == n + 1
    ensures Permitted(c, calls, 1, 2 * c.quota) == 2 * c.quota - 1
  {
    var q := c.quota;
    var t0 := ReadIn(c, n, c.period - 1, 500);
    var t1 := ReadIn(c, n + 1, 0, 100);
    var t2 := ReadIn(c, n + 1, 0, 600);
    NextPeriod(c, n);
    calls := TwoBursts(c, q, t0, t1, t2, t2);
    TwoWindows(c, calls, q);
  }

  lemma OverrunReached(c: Config)
    requires c.Valid() && c.align && c.quota >= 2
    ensures exists calls, i, j ::
      InOnePeriod(c, calls, i, j) && Dated(c, calls) && Prompt(c, calls)
      && Permitted(c, calls, i, j) == 2 * c.quota - 1
    ensures exists calls :: Dated(c, calls) && Prompt(c, calls) && !KeepsCalendarQuota(c, calls)
  {
    var calls := OverrunPermits(c, 0);
    assert InOnePeriod(c, calls, 1, |calls|);
    assert !KeepsCalendarQuota(c, calls);
  }

  /**
   Alignment is to the second while windows open at any millisecond: when scripts run in time, calendar
   periods keep to the quota in every run exactly when the quota is at most one.
   */
  lemma CalendarQuotaExactly(c: Config)
    requires c.Valid() && c.align
    ensures (forall calls: seq<Call> :: Dated(c, calls) && Prompt(c, calls) ==> KeepsCalendarQuota(c, calls))
       <==> c.quota <= 1
  {
    if c.quota <= 1 {
      forall calls: seq<Call> | Dated(c, calls) && Prompt(c, calls) ensures KeepsCalendarQuota(c, calls) {
        forall i, j | InOnePeriod(c, calls, i, j) ensures Permitted(c, calls, i, j) <= c.Share() {
          CalendarPermits(c, calls, i, j);
        }
      }
    } else {
      OverrunReached(c);
    }
  }

  /**
   Two calls: one whose caller reads the clock in the last second of calendar period `n`, but whose
   script runs in the next period, and one a second later. The late window ends after a second, so a
   quota of one is given twice in that period.
   */
  lemma LatePermits(c: Config, n: int) returns (calls: seq<Call>)
    requires c.Valid() && c.align && c.period >= 2 && n >= 0
    ensures Dated(c, calls) && |calls| == 2
    ensures CalendarPeriod(c, calls[0].clock) == CalendarPeriod(c, calls[1].clock) == n + 1
    ensures Permitted(c, calls, 0, 2) == 2
  {
    var read := ReadIn(c, n, c.period - 1, 999);
    var ran := ReadIn(c, n + 1, 0, 50);
    var next := ReadIn(c, n + 1, 1, 100);
    NextPeriod(c, n);
    calls := [Call(read, ran), AtOnce(next)];
    AtLeastASecond(c, calls[1]);
    OpensWindow(c, calls, 0, 1);
    OpensWindow(c, calls, 1, 2);
    PermittedSplit(c, calls, 0, 1, 2);
  }

  lemma LateReached(c: Config)
    requires c.Valid() && c.align && c.period >= 2 && c.quota <= 1
    ensures exists calls, i, j ::
      InOnePeriod(c, calls, i, j) && Dated(c, calls) && Permitted(c, calls, i, j) == 2 * c.Share()
    ensures exists calls :: Dated(c, calls) && !KeepsCalendarQuota(c, calls)
  {
    var calls := LatePermits(c, 0);
    assert InOnePeriod(c, calls, 0, 2);
    assert !KeepsCalendarQuota(c, calls);
  }

  /** A window of a second opened in a calendar period of a second lasts to the end of that period. */
  lemma SecondPeriodPermits(c: Config, calls: seq<Call>, i: int, j: int)
    requires c.Valid() && c.period == 1 && c.quota <= 1 && InOrder(calls) && 0 <= i < j <= |calls|
    requires CalendarPeriod(c, calls[i].clock) == CalendarPeriod(c, calls[j - 1].clock)
    ensures Permitted(c, calls, i, j) <= c.Share()
  {
    CalendarBounds(c, calls[i].clock);
    CalendarBounds(c, calls[j - 1].clock);
    NextPeriod(c, CalendarPeriod(c, calls[i].clock));
    forall k | i <= k < j && Opener(c, calls, k) == k ensures calls[j - 1].clock < Deadline(c, calls[k]) {
      AtLeastASecond(c, calls[k]);
      assert calls[i].clock <= calls[k].clock;
    }
    AtMostTwoWindows(c, calls, i, j);
  }

  /**
   However late scripts may run, calendar periods keep to the quota in every run exactly when the
   quota is at most one and the period a single second.
   */
  lemma LateCalendarQuotaExactly(c: Config)
    requires c.Valid() && c.align
    ensures (forall calls: seq<Call> :: Dated(c, calls) ==> KeepsCalendarQuota(c, calls))
       <==> c.quota <= 1 && c.period == 1
  {
    if c.quota >= 2 {
      OverrunReached(c);
    } else if c.period >= 2 {
      LateReached(c);
    } else {
      forall calls: seq<Call> | Dated(c, calls) ensures KeepsCalendarQuota(c, calls) {
        forall i, j | InOnePeriod(c, calls, i, j) ensures Permitted(c, calls, i, j) <= c.Share() {
          SecondPeriodPermits(c, calls, i, j);
        }
      }
    }
  }
}
