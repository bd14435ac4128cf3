/**
 The server-side unary timeout: a handler goroutine assigns a shared result under a lock, and the
 serving goroutine returns that result, raises the handler's panic again, or gives up at the deadline.
 */
module RpcTimeout {
  import opened Wrappers

  /** How the handler ends; `Vanishes` stands for panic(nil) and runtime.Goexit. */
  datatype Handler = Returns(resp: int, err: int) | Panics(p: int) | Vanishes

  datatype Context = Live | Canceled | DeadlineExceeded

  datatype Code = CanceledCode | DeadlineExceededCode

  datatype Outcome = Returned(resp: Option<int>, err: Option<int>) | Repanicked(p: int) | GaveUp(code: Code)

  datatype HandlerPc = Starting | Handling | Assigning | Assigned | Closed | Unwinding | Reporting | Ended

  datatype ServerPc =
    | Waiting
    | WantResult
    | ReadingResp
    | ReadingErr(resp: Option<int>)
    | Unlocking(o: Outcome)
    | Finished(o: Outcome)

  datatype Owner = Nobody | HandlerSide | ServerSide

  datatype State = State(
    handler: Handler, hpc: HandlerPc, spc: ServerPc, ctx: Context, lock: Owner,
    resp: Option<int>, err: Option<int>, done: bool, panicChan: Option<int>)

  function Init(handler: Handler): State {
    State(handler, Starting, Waiting, Live, Nobody, None, None, false, None)
  }

  function HandlerStep(s: State): State {
    match s.hpc
    case Starting => if s.lock == Nobody then s.(lock := HandlerSide, hpc := Handling) else s
    case Handling => s.(hpc := if s.handler.Returns? then Assigning else Unwinding)
    // the two results are assigned one after the other
    case Assigning => if s.handler.Returns? then s.(resp := Some(s.handler.resp), hpc := Assigned) else s
    case Assigned => if s.handler.Returns? then s.(err := Some(s.handler.err), done := true, hpc := Closed) else s
    case Closed => s.(lock := Nobody, hpc := Ended)
    // deferred calls run in reverse: the lock is released before the panic is recovered
    case Unwinding => s.(lock := Nobody, hpc := if s.handler.Panics? then Reporting else Ended)
    case Reporting =>
      if s.handler.Panics? && s.panicChan == None then s.(panicChan := Some(s.handler.p), hpc := Ended) else s
    case Ended => s
  }

  datatype Branch = OnPanic | OnDone | OnContext

  function ServerStep(s: State, b: Branch): State {
    match s.spc
    case Waiting => (
      match b
      case OnPanic =>
        if s.panicChan == None then s
        else s.(panicChan := None, spc := Finished(Repanicked(s.panicChan.value)))
      case OnDone => if s.done then s.(spc := WantResult) else s
      case OnContext =>
        if s.ctx == Live then s
        else s.(spc := Finished(GaveUp(if s.ctx == Canceled then CanceledCode else DeadlineExceededCode))))
    case WantResult => if s.lock == Nobody then s.(lock := ServerSide, spc := ReadingResp) else s
    case ReadingResp => s.(spc := ReadingErr(s.resp))
    case ReadingErr(resp) => s.(spc := Unlocking(Returned(resp, s.err)))
    case Unlocking(o) => s.(lock := Nobody, spc := Finished(o))
    case Finished(_) => s
  }

  datatype Event = HandlerMoves | ServerMoves(b: Branch) | ContextEnds(canceled: bool)

  function Step(s: State, e: Event): State {
    match e
    case HandlerMoves => HandlerStep(s)
    case ServerMoves(b) => ServerStep(s, b)
    case ContextEnds(canceled) =>
      if s.ctx == Live then s.(ctx := if canceled then Canceled else DeadlineExceeded) else s
  }

  function Run(handler: Handler, events: seq<Event>): State {
    if events == [] then Init(handler)
    else Step(Run(handler, events[..|events| - 1]), events[|events| - 1])
  }

  ghost predicate Inv(s: State) {
    && (s.lock == HandlerSide <==>
          s.hpc == Handling || s.hpc == Assigning || s.hpc == Assigned || s.hpc == Closed || s.hpc == Unwinding)
    && (s.lock == ServerSide <==> s.spc.ReadingResp? || s.spc.ReadingErr? || s.spc.Unlocking?)
    && (s.hpc == Assigning || s.hpc == Assigned || s.hpc == Closed ==> s.handler.Returns?)
    && (s.hpc == Unwinding ==> !s.handler.Returns?)
    && (s.hpc == Reporting ==> s.handler.Panics? && s.panicChan == None)
    && (s.panicChan.Some? ==> s.hpc == Ended && s.handler == Panics(s.panicChan.value))
    && (s.hpc == Assigned ==> s.resp == Some(s.handler.resp))
    && (s.hpc == Closed ==> s.done)
    && (s.done ==> s.hpc == Closed || s.hpc == Ended)
    && (s.done ==> s.handler.Returns? && s.resp == Some(s.handler.resp) && s.err == Some(s.handler.err))
    && (s.hpc == Ended && s.handler.Returns? ==> s.done)
    && (s.hpc == Ended && s.handler.Panics? ==> s.panicChan.Some? || s.spc == Finished(Repanicked(s.handler.p)))
    && (s.spc.WantResult? || s.spc.ReadingResp? || s.spc.ReadingErr? || s.spc.Unlocking? ==> s.done)
    && (s.spc.ReadingErr? ==> s.spc.resp == s.resp)
    && (s.spc.Unlocking? ==> s.spc.o == Returned(s.resp, s.err))
    && (s.spc.Finished? ==> Justified(s, s.spc.o))
  }

  /** What an outcome says about the handler and the context. */
  ghost predicate Justified(s: State, o: Outcome) {
    match o
    case Returned(resp, err) => s.handler.Returns? && resp == Some(s.handler.resp) && err == Some(s.handler.err)
    case Repanicked(p) => s.handler == Panics(p)
    case GaveUp(code) => s.ctx != Live && code == if s.ctx == Canceled then CanceledCode else DeadlineExceededCode
  }

  lemma StepKeepsInv(s: State, e: Event)
    requires Inv(s)
    ensures Inv(Step(s, e))
  {
  }

  /**
   In every interleaving the caller gets the handler's own pair of results and never half of it, or
   the handler's panic, or the status of a context that has ended.
   */
  lemma {:induction false} ResultIsNeverTorn(handler: Handler, events: seq<Event>)
    ensures var s := Run(handler, events);
      Inv(s) && s.handler == handler && (s.spc.Finished? ==> Justified(s, s.spc.o))
  {
    if events != [] {
      ResultIsNeverTorn(handler, events[..|events| - 1]);
      StepKeepsInv(Run(handler, events[..|events| - 1]), events[|events| - 1]);
    }
  }

  /** Some step of the handler or of the serving goroutine changes the state. */
  ghost predicate SomebodyCanMove(s: State) {
    HandlerStep(s) != s || exists b: Branch :: ServerStep(s, b) != s
  }

  /** The handler is gone without a trace, and the serving goroutine has only the context to wait for. */
  predicate WaitsInVain(s: State) {
    s.ctx == Live && s.handler == Vanishes && s.hpc == Ended
  }

  /** A call that has not finished is stuck exactly when its handler has vanished and the context is alive. */
  lemma StuckExactly(handler: Handler, events: seq<Event>)
    ensures var s := Run(handler, events);
      !s.spc.Finished? ==> (SomebodyCanMove(s) <==> !WaitsInVain(s))
  {
    ResultIsNeverTorn(handler, events);
    var s := Run(handler, events);
    if s.spc == Waiting {
      if s.ctx != Live {
        assert ServerStep(s, OnContext) != s;
      } else if s.done {
        assert ServerStep(s, OnDone) != s;
      } else if s.panicChan.Some? {
        assert ServerStep(s, OnPanic) != s;
      }
    } else if !s.spc.Finished? && s.lock != HandlerSide {
      assert ServerStep(s, OnDone) != s;
    }
  }

  /** A handler that does nothing but panic(nil) leads there. */
  lemma VanishedHandlerIsWaitedFor()
    ensures var s := Run(Vanishes, [HandlerMoves, HandlerMoves, HandlerMoves]);
      !s.spc.Finished? && WaitsInVain(s) && !SomebodyCanMove(s)
  {
    var one, two, three := [HandlerMoves], [HandlerMoves, HandlerMoves], [HandlerMoves, HandlerMoves, HandlerMoves];
    assert one[..0] == [] && two[..1] == one && three[..2] == two;
    assert Run(Vanishes, one) == HandlerStep(Init(Vanishes));
    assert Run(Vanishes, two) == HandlerStep(Run(Vanishes, one));
    StuckExactly(Vanishes, three);
  }
}
