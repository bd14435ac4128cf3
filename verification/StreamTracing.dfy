/**
 Tracing of client streams: callers of the stream report how it ends over an unbuffered channel to one
 goroutine, which passes the first report, or the end of the context, on to the goroutine that ends the
 span. Errors are numbers; no error is `None`.
 */
module StreamTracing {
  import opened Wrappers

  type Error = Option<int>

  datatype Event = ReceiveEnd | Failed(err: int)

  /** A call on the wrapped stream, with what the underlying stream answered. */
  datatype Call =
    | CloseSend(err: Error)
    | Header(err: Error)
    | SendMsg(err: Error)
    | RecvMsg(err: Error, isEof: bool, serverStreams: bool)

  /** The report that a call makes, if any. */
  function EventOf(c: Call): Option<Event> {
    match c
    case RecvMsg(err, isEof, serverStreams) =>
      if err.None? && !serverStreams then Some(ReceiveEnd)
      else if err.Some? && isEof then Some(ReceiveEnd)
      else if err.Some? then Some(Failed(err.value))
      else None
    case CloseSend(err) => if err.Some? then Some(Failed(err.value)) else None
    case Header(err) => if err.Some? then Some(Failed(err.value)) else None
    case SendMsg(err) => if err.Some? then Some(Failed(err.value)) else None
  }

  function ErrorOf(e: Event): Error {
    match e
    case ReceiveEnd => None
    case Failed(err) => Some(err)
  }

  datatype Sender = Offering(e: Event) | Returned

  datatype Loop = NeverStarted | Selecting | Finishing(err: Error) | Closing | Ended

  datatype Finisher = NotNeeded | Receiving | Marking(err: Error) | EndingSpan | Gone

  /** `first` is the report that was taken, `sent` everything that went over the Finished channel. */
  datatype State = State(
    senders: seq<Sender>, loop: Loop, finisher: Finisher, eventsDone: bool, ctxErr: Error,
    first: Option<Event>, sent: seq<Error>, spanEnds: nat, status: Option<Error>)

  /** The stream could not be opened: the span is ended at once. */
  function InitFailed(err: int): State {
    State([], NeverStarted, NotNeeded, false, None, None, [], 1, Some(Some(err)))
  }

  function InitOpened(): State {
    State([], Selecting, Receiving, false, None, None, [], 0, None)
  }

  datatype Step =
    | Calls(c: Call)
    | Takes(i: nat)
    | SeesContext
    | Delivers
    | Closes
    | LetsGo(i: nat)
    | Marks
    | EndsSpan
    | ContextEnds(err: int)

  predicate Enabled(s: State, t: Step) {
    match t
    case Calls(c) => EventOf(c).Some? && s.loop != NeverStarted
    case Takes(i) => s.loop == Selecting && i < |s.senders| && s.senders[i].Offering?
    case SeesContext => s.loop == Selecting && s.ctxErr.Some?
    case Delivers => s.loop.Finishing? && s.finisher == Receiving
    case Closes => s.loop == Closing
    case LetsGo(i) => s.eventsDone && i < |s.senders| && s.senders[i].Offering?
    case Marks => s.finisher.Marking?
    case EndsSpan => s.finisher == EndingSpan
    case ContextEnds(_) => s.ctxErr.None?
  }

  function Apply(s: State, t: Step): State
    requires Enabled(s, t)
  {
    match t
    case Calls(c) => s.(senders := s.senders + [Offering(EventOf(c).value)])
    case Takes(i) =>
      var e := s.senders[i].e;
      s.(senders := s.senders[i := Returned], loop := Finishing(ErrorOf(e)), first := Some(e))
    case SeesContext => s.(loop := Finishing(s.ctxErr))
    case Delivers => s.(sent := s.sent + [s.loop.err], loop := Closing, finisher := Marking(s.loop.err))
    case Closes => s.(eventsDone := true, loop := Ended)
    case LetsGo(i) => s.(senders := s.senders[i := Returned])
    case Marks => s.(status := Some(s.finisher.err), finisher := EndingSpan)
    case EndsSpan => s.(spanEnds := s.spanEnds + 1, finisher := Gone)
    case ContextEnds(err) => s.(ctxErr := Some(err))
  }

  /** A run from an opened or a failed stream; steps that are not enabled are skipped. */
  function Run(init: State, steps: seq<Step>): State {
    if steps == [] then init
    else
      var s := Run(init, steps[..|steps| - 1]);
      var t := steps[|steps| - 1];
      if Enabled(s, t) then Apply(s, t) else s
  }

  ghost predicate IsInit(s: State) {
    s == InitOpened() || exists err :: s == InitFailed(err)
  }

  /** The error that the span should be told: of the first report, or else of the context. */
  ghost predicate Verdict(s: State, err: Error) {
    if s.first.Some? then err == ErrorOf(s.first.value) else s.ctxErr.Some? && err == s.ctxErr
  }

  ghost predicate Inv(s: State) {
    && (s.loop == NeverStarted <==> s.finisher == NotNeeded)
    && (s.loop == NeverStarted ==> s.spanEnds == 1 && s.sent == [] && s.senders == [])
    && (s.loop == Selecting || s.loop.Finishing? ==> s.finisher == Receiving && s.sent == [] && s.spanEnds == 0)
    && (s.loop == Selecting ==> s.first == None)
    && (s.loop.Finishing? ==> Verdict(s, s.loop.err))
    && (s.loop == Closing || s.loop == Ended ==>
          && |s.sent| == 1 && Verdict(s, s.sent[0])
          && s.finisher != Receiving && s.finisher != NotNeeded
          && (s.finisher.Marking? ==> s.finisher.err == s.sent[0])
          && (s.finisher == EndingSpan || s.finisher == Gone ==> s.status == Some(s.sent[0]))
          && s.spanEnds == (if s.finisher == Gone then 1 else 0))
    && (s.eventsDone <==> s.loop == Ended)
  }

  lemma ApplyKeepsInv(s: State, t: Step)
    requires Inv(s) && Enabled(s, t)
    ensures Inv(Apply(s, t))
  {
  }

  lemma {:induction false} InvAlways(init: State, steps: seq<Step>)
    requires IsInit(init)
    ensures Inv(Run(init, steps))
  {
    if steps != [] {
      InvAlways(init, steps[..|steps| - 1]);
      var s := Run(init, steps[..|steps| - 1]);
      if Enabled(s, steps[|steps| - 1]) {
        ApplyKeepsInv(s, steps[|steps| - 1]);
      }
    }
  }

  /** Neither the loop nor the finishing goroutine can do anything any more, whatever happens. */
  predicate Over(s: State) {
    (s.loop == NeverStarted || s.loop == Ended) && (s.finisher == NotNeeded || s.finisher == Gone)
  }

  /**
   In every run at most one value goes over the Finished channel, and it is the first report that was
   taken or else the error of the context; the span never ends twice, and has ended once, with that
   value as its status, when both goroutines are over.
   */
  lemma SpanEndsOnce(init: State, steps: seq<Step>)
    requires IsInit(init)
    ensures var s := Run(init, steps);
      && |s.sent| <= 1
      && (s.sent != [] ==> Verdict(s, s.sent[0]))
      && s.spanEnds <= 1
      && (Over(s) ==> s.spanEnds == 1)
      && (s.spanEnds == 1 && s.loop != NeverStarted ==> |s.sent| == 1 && s.status == Some(s.sent[0]))
  {
    InvAlways(init, steps);
  }

  /** The stream is over as it should be: its one answer has come, or the end of many. */
  predicate EndsWell(c: Call) {
    c.RecvMsg? && if c.err.None? then !c.serverStreams else c.isEof
  }

  predicate FailsWith(c: Call, err: int) {
    c.err == Some(err) && !(c.RecvMsg? && c.isEof)
  }

  /** The call leaves the stream as it was. */
  predicate GoesOn(c: Call) {
    !EndsWell(c) && c.err.None?
  }

  ghost predicate SomeCallEndsWell(steps: seq<Step>) {
    exists k :: 0 <= k < |steps| && steps[k].Calls? && EndsWell(steps[k].c)
  }

  ghost predicate SomeCallFailsWith(steps: seq<Step>, err: int) {
    exists k :: 0 <= k < |steps| && steps[k].Calls? && FailsWith(steps[k].c, err)
  }

  /** The context ended with `err` first of all. */
  ghost predicate ContextEndedWith(steps: seq<Step>, err: int) {
    exists k ::
      && 0 <= k < |steps| && steps[k] == ContextEnds(err)
      && forall m :: 0 <= m < k ==> !steps[m].ContextEnds?
  }

  ghost predicate ContextLives(steps: seq<Step>) {
    forall k :: 0 <= k < |steps| ==> !steps[k].ContextEnds?
  }

  /** Some call has made the report. */
  ghost predicate IsTrue(e: Event, steps: seq<Step>) {
    match e
    case ReceiveEnd => SomeCallEndsWell(steps)
    case Failed(err) => SomeCallFailsWith(steps, err)
  }

  ghost predicate ReportsAreTrue(s: State, steps: seq<Step>) {
    && (forall i :: 0 <= i < |s.senders| && s.senders[i].Offering? ==> IsTrue(s.senders[i].e, steps))
    && (s.first.Some? ==> IsTrue(s.first.value, steps))
    && (if s.ctxErr.Some? then ContextEndedWith(steps, s.ctxErr.value) else ContextLives(steps))
  }

  lemma StaysTrue(e: Event, steps: seq<Step>, t: Step)
    requires IsTrue(e, steps)
    ensures IsTrue(e, steps + [t])
  {
    if e == ReceiveEnd {
      var k :| 0 <= k < |steps| && steps[k].Calls? && EndsWell(steps[k].c);
      assert (steps + [t])[k] == steps[k];
    } else {
      var k :| 0 <= k < |steps| && steps[k].Calls? && FailsWith(steps[k].c, e.err);
      assert (steps + [t])[k] == steps[k];
    }
  }

  lemma ReportIsTrue(steps: seq<Step>, c: Call)
    requires EventOf(c).Some?
    ensures IsTrue(EventOf(c).value, steps + [Calls(c)])
  {
    var k := |steps|;
    assert (steps + [Calls(c)])[k] == Calls(c);
  }

  lemma EndingIsKnown(s: State, steps: seq<Step>, t: Step)
    requires ReportsAreTrue(s, steps)
    ensures s.ctxErr.Some? ==> ContextEndedWith(steps + [t], s.ctxErr.value)
    ensures s.ctxErr.None? && t.ContextEnds? ==> ContextEndedWith(steps + [t], t.err)
    ensures s.ctxErr.None? && !t.ContextEnds? ==> ContextLives(steps + [t])
  {
    var more := steps + [t];
    if s.ctxErr.Some? {
      var k :| 0 <= k < |steps| && steps[k] == ContextEnds(s.ctxErr.value)
               && forall m :: 0 <= m < k ==> !steps[m].ContextEnds?;
      assert more[k] == steps[k];
    } else if t.ContextEnds? {
      assert more[|steps|] == t;
    }
  }

  lemma StepKeepsTrue(s: State, steps: seq<Step>, t: Step)
    requires ReportsAreTrue(s, steps)
    ensures ReportsAreTrue(if Enabled(s, t) then Apply(s, t) else s, steps + [t])
  {
    EndingIsKnown(s, steps, t);
    forall i | 0 <= i < |s.senders| && s.senders[i].Offering? ensures IsTrue(s.senders[i].e, steps + [t]) {
      StaysTrue(s.senders[i].e, steps, t);
    }
    if s.first.Some? {
      StaysTrue(s.first.value, steps, t);
    }
    if Enabled(s, t) && t.Calls? {
      ReportIsTrue(steps, t.c);
    }
  }

  lemma {:induction false} ReportsAlwaysTrue(init: State, steps: seq<Step>)
    requires IsInit(init)
    ensures ReportsAreTrue(Run(init, steps), steps)
  {
    if steps != [] {
      var n := |steps| - 1;
      assert steps == steps[..n] + [steps[n]];
      ReportsAlwaysTrue(init, steps[..n]);
      StepKeepsTrue(Run(init, steps[..n]), steps[..n], steps[n]);
    }
  }

  /**
   In every run the span of a stream is told of no error only if some receive met the end of the stream
   or brought the one answer of a stream that has one, and of an error only if a call failed with it or
   the context ended with it first of all; that is also the status of a span that has ended.
   */
  lemma SpanTellsTheTruth(init: State, steps: seq<Step>, told: Error)
    requires IsInit(init)
    requires var s := Run(init, steps);
      told in s.sent || (s.spanEnds == 1 && s.loop != NeverStarted && s.status == Some(told))
    ensures told == None ==> SomeCallEndsWell(steps)
    ensures told.Some? ==> SomeCallFailsWith(steps, told.value) || ContextEndedWith(steps, told.value)
  {
    SpanEndsOnce(init, steps);
    ReportsAlwaysTrue(init, steps);
  }

  /**
   As long as every call leaves the stream as it was and the context lives, nobody reports anything,
   nothing is sent and the span goes on.
   */
  lemma {:induction false} LiveStreamIsSilent(steps: seq<Step>)
    requires ContextLives(steps)
    requires forall k :: 0 <= k < |steps| && steps[k].Calls? ==> GoesOn(steps[k].c)
    ensures Run(InitOpened(), steps) == InitOpened()
  {
    if steps != [] {
      LiveStreamIsSilent(steps[..|steps| - 1]);
    }
  }

  /** The span of a stream that could not be opened has ended with that error, once, whatever happens. */
  lemma {:induction false} FailedOpenEndsSpan(err: int, steps: seq<Step>)
    ensures var s := Run(InitFailed(err), steps);
      && s.spanEnds == 1 && s.status == Some(Some(err)) && s.sent == [] && s.senders == []
      && s.loop == NeverStarted && s.finisher == NotNeeded && !s.eventsDone
  {
    if steps != [] {
      FailedOpenEndsSpan(err, steps[..|steps| - 1]);
    }
  }

  /** How many calls end the stream well or fail. */
  function EndsAndFailures(steps: seq<Step>): nat {
    if steps == [] then 0
    else
      var t := steps[|steps| - 1];
      EndsAndFailures(steps[..|steps| - 1]) + (if t.Calls? && !GoesOn(t.c) then 1 else 0)
  }

  /** Each call that ends the stream or fails makes one report, and no other call makes any. */
  lemma {:induction false} EachEndIsReported(steps: seq<Step>)
    ensures |Run(InitOpened(), steps).senders| == EndsAndFailures(steps)
    ensures Run(InitOpened(), steps).loop != NeverStarted
  {
    if steps != [] {
      EachEndIsReported(steps[..|steps| - 1]);
    }
  }

  /** The first call that ends a live stream, or fails on it, gives its span the status. */
  lemma FirstEndDecides(before: seq<Step>, c: Call) returns (steps: seq<Step>)
    requires ContextLives(before) && !GoesOn(c)
    requires forall k :: 0 <= k < |before| && before[k].Calls? ==> GoesOn(before[k].c)
    ensures steps == before + [Calls(c), Takes(0), Delivers, Closes, Marks, EndsSpan]
    ensures var s := Run(InitOpened(), steps);
      && s.spanEnds == 1 && s.eventsDone
      && (EndsWell(c) ==> s.status == Some(None))
      && (forall err :: FailsWith(c, err) ==> s.status == Some(Some(err)))
  {
    LiveStreamIsSilent(before);
    RunOn(InitOpened(), before, Calls(c));
    steps := ReportGetsThrough(before + [Calls(c)], EventOf(c).value);
  }

  lemma ReportGetsThrough(calls: seq<Step>, e: Event) returns (steps: seq<Step>)
    requires Run(InitOpened(), calls) == InitOpened().(senders := [Offering(e)])
    ensures steps == calls + [Takes(0), Delivers, Closes, Marks, EndsSpan]
    ensures var s := Run(InitOpened(), steps); s.spanEnds == 1 && s.eventsDone && s.status == Some(ErrorOf(e))
  {
    RunOn(InitOpened(), calls, Takes(0));
    var taken := calls + [Takes(0)];
    RunOn(InitOpened(), taken, Delivers);
    steps := SpanIsMarked(taken + [Delivers], ErrorOf(e));
  }

  lemma SpanIsMarked(before: seq<Step>, err: Error) returns (steps: seq<Step>)
    requires var s := Run(InitOpened(), before); s.loop == Closing && s.finisher == Marking(err) && s.spanEnds == 0
    ensures steps == before + [Closes, Marks, EndsSpan]
    ensures var s := Run(InitOpened(), steps); s.spanEnds == 1 && s.eventsDone && s.status == Some(err)
  {
    RunOn(InitOpened(), before, Closes);
    var closed := before + [Closes];
    RunOn(InitOpened(), closed, Marks);
    var marked := closed + [Marks];
    RunOn(InitOpened(), marked, EndsSpan);
    steps := marked + [EndsSpan];
  }

  lemma RunOn(init: State, steps: seq<Step>, t: Step)
    ensures var s := Run(init, steps); Run(init, steps + [t]) == if Enabled(s, t) then Apply(s, t) else s
  {
    assert (steps + [t])[..|steps|] == steps;
  }

  /** How many moves of the loop lie ahead. */
  function Ahead(l: Loop): nat {
    match l
    case Selecting => 3
    case Finishing(_) => 2
    case Closing => 1
    case _ => 0
  }

  /** The moves of the loop, and of the two goroutines it meets. */
  predicate MovesLoop(t: Step) {
    t.Takes? || t.SeesContext? || t.Delivers? || t.Closes?
  }

  /**
   Nobody who reports is blocked for good: a caller that is still offering its report can be let go at
   once, or some move of the loop is enabled; such moves bring the loop nearer to its end, where every
   caller is let go, and nothing else takes it back.
   */
  lemma SenderIsReleased(init: State, steps: seq<Step>, i: nat)
    requires IsInit(init) && i < |Run(init, steps).senders| && Run(init, steps).senders[i].Offering?
    ensures var s := Run(init, steps);
      && (Enabled(s, Takes(i)) || Enabled(s, Delivers) || Enabled(s, Closes) || Enabled(s, LetsGo(i)))
      && (Ahead(s.loop) == 0 ==> Enabled(s, LetsGo(i)))
      && (Enabled(s, LetsGo(i)) ==> Apply(s, LetsGo(i)).senders[i] == Returned)
      && forall t: Step :: Enabled(s, t) ==> NearsRelease(s, t, i)
  {
    InvAlways(init, steps);
    var s := Run(init, steps);
    forall t: Step | Enabled(s, t) ensures NearsRelease(s, t, i) {
      EveryMoveNears(s, t, i);
    }
  }

  /** A move of the loop brings it nearer to its end, another move leaves it; the caller offers on or is let go. */
  ghost predicate NearsRelease(s: State, t: Step, i: nat)
    requires Enabled(s, t) && i < |s.senders|
  {
    var s' := Apply(s, t);
    && (if MovesLoop(t) then Ahead(s'.loop) < Ahead(s.loop) else s'.loop == s.loop)
    && i < |s'.senders|
    && (s'.senders[i] == s.senders[i] || s'.senders[i] == Returned)
  }

  lemma EveryMoveNears(s: State, t: Step, i: nat)
    requires Enabled(s, t) && i < |s.senders|
    ensures NearsRelease(s, t, i)
  {
  }

  /** How many moves of the finishing goroutine lie ahead. */
  function Remaining(f: Finisher): nat {
    match f
    case Receiving => 3
    case Marking(_) => 2
    case EndingSpan => 1
    case _ => 0
  }

  /** How many moves of loop and finisher are left before the span has ended and all callers are let go. */
  function Left(s: State): nat {
    Ahead(s.loop) + Remaining(s.finisher)
  }

  predicate MovesOn(t: Step) {
    MovesLoop(t) || t.Marks? || t.EndsSpan?
  }

  /**
   Once the context has ended, a span that has not always has a move that leads on; each such move
   lowers what is left by one or two, no other move changes it, and when nothing is left the span has ended.
   So it ends after at most six of them.
   */
  lemma SpanCanEnd(init: State, steps: seq<Step>)
    requires IsInit(init)
    ensures var s := Run(init, steps);
      && (s.ctxErr.Some? && s.spanEnds == 0 ==> exists t: Step :: Enabled(s, t) && MovesOn(t))
      && (forall t: Step :: Enabled(s, t) ==>
            if MovesOn(t) then Left(Apply(s, t)) < Left(s) else Left(Apply(s, t)) == Left(s))
      && Left(s) <= 6
      && (Left(s) == 0 ==> s.spanEnds == 1)
  {
    InvAlways(init, steps);
    var s := Run(init, steps);
    if s.ctxErr.Some? && s.spanEnds == 0 {
      assert Enabled(s, SeesContext) || Enabled(s, Delivers) || Enabled(s, Marks) || Enabled(s, EndsSpan);
    }
    forall t: Step | Enabled(s, t)
      ensures if MovesOn(t) then Left(Apply(s, t)) < Left(s) else Left(Apply(s, t)) == Left(s)
    {
      EveryMoveCounts(s, t);
    }
  }

  lemma EveryMoveCounts(s: State, t: Step)
    requires Enabled(s, t)
    ensures if MovesOn(t) then Left(Apply(s, t)) < Left(s) else Left(Apply(s, t)) == Left(s)
  {
  }

  /** A way to the end, from any run: once the context has ended, some further moves end the span. */
  lemma SpanEndsFrom(init: State, steps: seq<Step>) returns (more: seq<Step>)
    requires IsInit(init) && Run(init, steps).ctxErr.Some?
    ensures |more| <= 6 && Run(init, steps + more).spanEnds == 1
  {
    var s := Run(init, steps);
    SpanCanEnd(init, steps);
    SpanEndsOnce(init, steps);
    if s.spanEnds == 0 {
      more := SpanMovesOn(init, steps);
    } else {
      more := [];
      assert steps + more == steps;
    }
  }

  lemma SpanMovesOn(init: State, steps: seq<Step>) returns (more: seq<Step>)
    requires IsInit(init) && Run(init, steps).ctxErr.Some? && Run(init, steps).spanEnds == 0
    ensures |more| <= Left(Run(init, steps)) <= 6 && Run(init, steps + more).spanEnds == 1
    decreases Left(Run(init, steps))
  {
    var s := Run(init, steps);
    SpanCanEnd(init, steps);
    var t: Step :| Enabled(s, t) && MovesOn(t);
    var next := steps + [t];
    assert next[..|steps|] == steps && Run(init, next) == Apply(s, t);
    EveryMoveCounts(s, t);
    SpanEndsOnce(init, next);
    if Run(init, next).spanEnds == 0 {
      var rest := SpanMovesOn(init, next);
      more := [t] + rest;
      assert steps + more == next + rest;
    } else {
      more := [t];
    }
  }
}
