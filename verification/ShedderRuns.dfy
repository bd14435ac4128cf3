/** Whole runs of the adaptive shedder: what decides the next request, over the log of what happened. */
module ShedderRuns {
  import opened WindowLog
  import opened WindowSpec
  import opened Shedding

  datatype Event =
    | Arrive(overloaded: bool, t: Readings)
    | Fail
    | Pass(start: int, end: int, rtNow: int, rtAgain: int, passNow: int, passAgain: int)

  /** The shedder's fields, and the record of all arrivals, drops, additions and counts at the ends so far. */
  datatype State = State(
    pass: Ring, rt: Ring, flying: int, avg: real, memory: Drops,
    asks: seq<Ask>, drops: seq<bool>, passes: seq<Tick>, rts: seq<Tick>, counts: seq<int>, admitted: nat, finished: nat)

  function Init(ring: Ring): State {
    State(ring, ring, 0, 0.0, Drops(0, false), [], [], [], [], [], 0, 0)
  }

  function LimitOf(s: State, windows: int, t: Readings): int
    requires s.pass.Valid() && s.rt.Valid()
  {
    Capacity(MaxPassOf(Visited(s.pass, true, t.pass)), windows, MinRtOf(Visited(s.rt, true, t.rt)))
  }

  function Arrived(s: State, windows: int, overloaded: bool, t: Readings): State
    requires s.pass.Valid() && s.rt.Valid()
  {
    var high := Exceeds(s.avg, s.flying, LimitOf(s, windows, t));
    var (dropped, memory) := AfterAllow(s.memory, overloaded, high, t.hot, t.drop);
    s.(memory := memory, asks := s.asks + [Ask(overloaded, high, t.hot, t.drop)], drops := s.drops + [dropped],
       flying := if dropped then s.flying else s.flying + 1, admitted := if dropped then s.admitted else s.admitted + 1)
  }

  function Finished(s: State): State {
    s.(flying := s.flying - 1, avg := Smooth(s.avg, s.flying - 1), finished := s.finished + 1,
       counts := s.counts + [s.flying - 1])
  }

  /** A request that was let in is reported once: without any in flight nothing can finish. */
  function Step(s: State, windows: int, e: Event): (s': State)
    requires s.pass.Valid() && s.rt.Valid()
    ensures s'.pass.Valid() && s'.rt.Valid()
  {
    match e
    case Arrive(overloaded, t) => Arrived(s, windows, overloaded, t)
    case Fail => if s.admitted == s.finished then s else Finished(s)
    case Pass(start, end, rtNow, rtAgain, passNow, passAgain) =>
      if s.admitted == s.finished then s
      else
        var rt, pass := Tick(LatencyOf(start, end), rtNow, rtAgain), Tick(1.0, passNow, passAgain);
        Finished(s).(
          rt := AddSpec(s.rt, rt.v, rt.now, rt.again), rts := s.rts + [rt],
          pass := AddSpec(s.pass, pass.v, pass.now, pass.again), passes := s.passes + [pass])
  }

  function Run(ring: Ring, windows: int, events: seq<Event>): (s: State)
    requires ring.Valid()
    ensures s.pass.Valid() && s.rt.Valid()
  {
    if events == [] then Init(ring)
    else Step(Run(ring, windows, events[..|events| - 1]), windows, events[|events| - 1])
  }

  ghost predicate Inv(s: State, ring: Ring)
    requires ring.Valid()
  {
    && s.pass == RunAdds(ring, s.passes) && s.rt == RunAdds(ring, s.rts)
    && (forall i :: 0 <= i < |s.passes| ==> s.passes[i].v == 1.0)
    && RunAsks(s.asks) == (s.drops, s.memory)
    && s.flying == s.admitted - s.finished >= 0
    && |s.counts| == s.finished && s.avg == AverageOf(s.counts)
  }

  /** The moving average of some counts, beginning at nothing: each counts a tenth, what was before nine tenths. */
  function AverageOf(counts: seq<int>): real {
    if counts == [] then 0.0
    else (9.0 * AverageOf(counts[..|counts| - 1]) + counts[|counts| - 1] as real) / 10.0
  }

  lemma FinishKeepsAverage(s: State)
    requires s.avg == AverageOf(s.counts)
    ensures Finished(s).avg == AverageOf(Finished(s).counts)
  {
    var t := Finished(s);
    assert t.counts[..|t.counts| - 1] == s.counts;
  }

  lemma OneMoreAdd(ring: Ring, ticks: seq<Tick>, t: Tick)
    requires ring.Valid()
    ensures RunAdds(ring, ticks + [t]) == AddSpec(RunAdds(ring, ticks), t.v, t.now, t.again)
  {
    assert (ticks + [t])[..|ticks|] == ticks;
  }

  lemma OneMoreAsk(asks: seq<Ask>, a: Ask)
    ensures var (drops, d) := RunAsks(asks);
      var (dropped, d') := AfterAllow(d, a.overloaded, a.high, a.now, a.dropAt);
      RunAsks(asks + [a]) == (drops + [dropped], d')
  {
    assert (asks + [a])[..|asks|] == asks;
  }

  lemma ArrivalKeepsInv(s: State, ring: Ring, windows: int, overloaded: bool, t: Readings)
    requires ring.Valid() && s.pass.Valid() && s.rt.Valid() && Inv(s, ring)
    ensures Inv(Arrived(s, windows, overloaded, t), ring)
  {
    OneMoreAsk(s.asks, Ask(overloaded, Exceeds(s.avg, s.flying, LimitOf(s, windows, t)), t.hot, t.drop));
  }

  lemma PassKeepsInv(s: State, ring: Ring, windows: int, e: Event)
    requires ring.Valid() && s.pass.Valid() && s.rt.Valid() && Inv(s, ring) && e.Pass?
    ensures Inv(Step(s, windows, e), ring)
  {
    OneMoreAdd(ring, s.rts, Tick(LatencyOf(e.start, e.end), e.rtNow, e.rtAgain));
    OneMoreAdd(ring, s.passes, Tick(1.0, e.passNow, e.passAgain));
    FinishKeepsAsks(s, ring, windows, e);
    FinishKeepsAverage(s);
  }

  lemma FinishKeepsAsks(s: State, ring: Ring, windows: int, e: Event)
    requires ring.Valid() && s.pass.Valid() && s.rt.Valid() && Inv(s, ring) && !e.Arrive?
    ensures var s' := Step(s, windows, e);
      && RunAsks(s'.asks) == (s'.drops, s'.memory)
      && s'.flying == s'.admitted - s'.finished >= 0
  {
    var s' := Step(s, windows, e);
    assert (s'.asks, s'.drops, s'.memory) == (s.asks, s.drops, s.memory);
  }

  lemma StepKeepsInv(s: State, ring: Ring, windows: int, e: Event)
    requires ring.Valid() && s.pass.Valid() && s.rt.Valid() && Inv(s, ring)
    ensures Inv(Step(s, windows, e), ring)
  {
    match e
    case Arrive(overloaded, t) => ArrivalKeepsInv(s, ring, windows, overloaded, t);
    case Fail =>
      FinishKeepsAverage(s);
    case Pass(_, _, _, _, _, _) => PassKeepsInv(s, ring, windows, e);
  }

  /**
   Over every run the requests in flight are those let in less those finished, the two windows have
   received one addition for each request that passed and none for the others, and the memory of
   drops is that of the arrivals.
   */
  lemma {:induction false} RunIsAccounted(ring: Ring, windows: int, events: seq<Event>)
    requires ring.Valid()
    ensures Inv(Run(ring, windows, events), ring)
  {
    if events != [] {
      RunIsAccounted(ring, windows, events[..|events| - 1]);
      StepKeepsInv(Run(ring, windows, events[..|events| - 1]), ring, windows, events[|events| - 1]);
    }
  }

  /** Clock readings of a run in order, and none after those of the next request. */
  ghost predicate Timely(s: State, origin: int, interval: int, t: Readings)
    requires interval > 0
  {
    && Steady(s.passes, origin, interval) && LastAt(LogOf(s.passes), origin) <= t.pass
    && Steady(s.rts, origin, interval) && LastAt(LogOf(s.rts), origin) <= t.rt
    && InOrder(s.asks) && forall i :: 0 <= i < |s.asks| ==> s.asks[i].dropAt <= t.hot
  }

  lemma LogsOfWindows(s: State, buckets: int, interval: int, origin: int, t: Readings)
    requires buckets > 0 && interval > 0 && Inv(s, NewRing(buckets, interval, origin))
    requires Timely(s, origin, interval, t)
    requires s.pass.Valid() && s.rt.Valid()
    ensures EstimatesAreOfLog(s, buckets, interval, origin, t)
  {
    RunRefinesLog(buckets, interval, origin, s.passes);
    RunRefinesLog(buckets, interval, origin, s.rts);
    MaxPassOnLog(s.pass, LogOf(s.passes), origin, t.pass);
    MinRtOnLog(s.rt, LogOf(s.rts), origin, t.rt);
  }

  /** maxPass and minRt are those of the completed intervals of the two logs. */
  ghost predicate EstimatesAreOfLog(s: State, buckets: int, interval: int, origin: int, t: Readings)
    requires interval > 0 && s.pass.Valid() && s.rt.Valid()
  {
    var maxPass, minRt := MaxPassOf(Visited(s.pass, true, t.pass)), MinRtOf(Visited(s.rt, true, t.rt));
    && LargestInSlots(LogOf(s.passes), origin, interval, t.pass, buckets, maxPass)
    && SmallestMeanInSlots(LogOf(s.rts), origin, interval, t.rt, buckets, minRt)
  }

  /**
   The next request is dropped exactly when the CPU is overloaded, or some request was dropped less
   than the cool-off time ago, and both the requests in flight and their average, cut to a whole
   number, are more than one and more than the largest number of passes, times the intervals in a
   second, times the smallest mean response time.
   */
  ghost predicate DropsNextExactly(s: State, windows: int, overloaded: bool, t: Readings)
    requires s.pass.Valid() && s.rt.Valid()
  {
    var maxPass, minRt := MaxPassOf(Visited(s.pass, true, t.pass)), MinRtOf(Visited(s.rt, true, t.rt));
    var drops := Step(s, windows, Arrive(overloaded, t)).drops;
    && |drops| == |s.drops| + 1
    && (drops[|s.drops|] <==> Overfull(s.admitted - s.finished, (maxPass * windows) as real * minRt)
                              && Overfull(s.avg.Floor, (maxPass * windows) as real * minRt)
                              && (overloaded || DroppedShortlyBefore(s.asks, s.drops, t.hot)))
  }

  lemma NextDrop(s: State, windows: int, overloaded: bool, t: Readings)
    requires s.pass.Valid() && s.rt.Valid() && s.flying == s.admitted - s.finished
    requires RunAsks(s.asks) == (s.drops, s.memory)
    requires InOrder(s.asks) && forall i :: 0 <= i < |s.asks| ==> s.asks[i].dropAt <= t.hot
    ensures DropsNextExactly(s, windows, overloaded, t)
  {
    HotMeansRecentDrop(s.asks, t.hot);
    var maxPass, minRt := MaxPassOf(Visited(s.pass, true, t.pass)), MinRtOf(Visited(s.rt, true, t.rt));
    ExceedsExactly(s.avg, s.flying, maxPass, windows, minRt);
  }

  /** The next request is judged by what was logged in the completed intervals. */
  ghost predicate DecidesOnLog(s: State, buckets: int, interval: int, origin: int, windows: int,
        overloaded: bool, t: Readings)
    requires interval > 0 && s.pass.Valid() && s.rt.Valid()
  {
    EstimatesAreOfLog(s, buckets, interval, origin, t) && DropsNextExactly(s, windows, overloaded, t)
  }

  lemma InvDecides(s: State, buckets: int, interval: int, origin: int, windows: int, overloaded: bool, t: Readings)
    requires buckets > 0 && interval > 0 && s.pass.Valid() && s.rt.Valid()
    requires Inv(s, NewRing(buckets, interval, origin)) && Timely(s, origin, interval, t)
    ensures DecidesOnLog(s, buckets, interval, origin, windows, overloaded, t)
  {
    LogsOfWindows(s, buckets, interval, origin, t);
    NextDrop(s, windows, overloaded, t);
  }

  /** After any timely run the shedder decides on what was logged, with as many intervals as make a second. */
  lemma ShedderDecidesOnLog(buckets: int, interval: int, origin: int, windows: int, events: seq<Event>,
        overloaded: bool, t: Readings)
    requires buckets > 0 && interval > 0 && windows * interval <= SECOND < (windows + 1) * interval
    requires Timely(Run(NewRing(buckets, interval, origin), windows, events), origin, interval, t)
    ensures var s := Run(NewRing(buckets, interval, origin), windows, events);
      DecidesOnLog(s, buckets, interval, origin, windows, overloaded, t)
  {
    RunIsAccounted(NewRing(buckets, interval, origin), windows, events);
    var s := Run(NewRing(buckets, interval, origin), windows, events);
    InvDecides(s, buckets, interval, origin, windows, overloaded, t);
  }
}
