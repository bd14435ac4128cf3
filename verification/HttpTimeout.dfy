/**
 The HTTP timeout handler: a handler goroutine writes to a buffered writer while the server goroutine
 waits for its end, its panic or the deadline.
 */
module HttpTimeout {
  import opened Wrappers

  type Bytes = string
  type Header = map<string, seq<string>>

  const STATUS_OK := 200
  const STATUS_CLIENT_CLOSED_REQUEST := 499
  const STATUS_SERVICE_UNAVAILABLE := 503
  const REASON: Bytes := "Request Timeout"

  datatype PanicValue = Raised(value: int) | InvalidCode(code: int)

  /** What the handler does, one call after the other. */
  datatype Op =
    | SetHeader(key: string, values: seq<string>)
    | WriteHeader(code: int)
    | Write(p: Bytes)
    | Panic(value: int)
    // panic(nil) or runtime.Goexit: ends the goroutine without a trace
    | Vanish

  datatype Writer = Writer(h: Header, wbuf: Bytes, timedOut: bool, wroteHeader: bool, code: int)

  /** What the client gets. */
  datatype Response = Response(headers: Header, status: Option<int>, body: Bytes)

  datatype Context = Live | Canceled | DeadlineExceeded

  datatype HandlerPc =
    | Calling
    | InWriter
    | Panicking(p: PanicValue)
    | Closed
    | Panicked
    | Vanished

  datatype Outcome = Completed | TimedOut | Repanicked(p: PanicValue)

  datatype ServerPc =
    | Waiting
    | WantCopy
    | CopyingHeaders
    | CopyingStatus
    | CopyingBody
    | WantTimeout
    | TimeoutStatus
    | TimeoutBody
    | TimeoutMark
    | Leaving(how: Outcome)
    | Finished(how: Outcome)

  datatype Owner = Nobody | Handler | Server

  datatype State = State(
    ops: seq<Op>, next: nat, hpc: HandlerPc, spc: ServerPc, ctx: Context, lock: Owner,
    tw: Writer, panicChan: Option<PanicValue>, w: Response, writes: seq<bool>)

  function Init(ops: seq<Op>, headers: Header): State {
    State(ops, 0, Calling, Waiting, Live, Nobody,
          Writer(map[], [], false, false, 0), None, Response(headers, None, []), [])
  }

  predicate ValidCode(code: int) {
    100 <= code <= 599
  }

  /** writeHeaderLocked, for a code that is valid. */
  function WriteHeaderLocked(tw: Writer, code: int): Writer {
    if tw.timedOut || tw.wroteHeader then tw else tw.(wroteHeader := true, code := code)
  }

  /** A write and whether it succeeded. */
  function Written(tw: Writer, p: Bytes): (Writer, bool) {
    if tw.timedOut then (tw, false)
    else
      var locked := WriteHeaderLocked(tw, STATUS_OK);
      (locked.(wbuf := locked.wbuf + p), true)
  }

  /** The writer handed to the handler. Its methods run under its mutex. */
  class TimeoutWriter {
    var h: Header
    var wbuf: Bytes
    var timedOut: bool
    var wroteHeader: bool
    var code: int

    function State(): Writer
      reads this
    {
      Writer(h, wbuf, timedOut, wroteHeader, code)
    }

    constructor ()
      ensures State() == Writer(map[], [], false, false, 0)
    {
      h, wbuf, timedOut, wroteHeader, code := map[], [], false, false, 0;
    }

    method Write(p: Bytes) returns (ok: bool)
      modifies this
      ensures (State(), ok) == Written(old(State()), p)
    {
      if timedOut {
        return false;
      }
      if !wroteHeader {
        var _ := LockedWriteHeader(STATUS_OK);
      }
      wbuf := wbuf + p;
      ok := true;
    }

    /** Panics, which `ok` tells, on a code that is no HTTP status, whatever state the writer is in. */
    method LockedWriteHeader(status: int) returns (ok: bool)
      modifies this
      ensures ok == ValidCode(status)
      ensures State() == if ok then WriteHeaderLocked(old(State()), status) else old(State())
    {
      if status < 100 || status > 599 {
        return false;
      }
      if !timedOut && !wroteHeader {
        wroteHeader := true;
        code := status;
      }
      ok := true;
    }
  }

  /** One step of the handler goroutine. A call of the writer takes the lock first. */
  function HandlerStep(s: State): State {
    match s.hpc
    case Calling =>
      if s.next >= |s.ops| then s.(hpc := Closed)
      else (
        match s.ops[s.next]
        case SetHeader(k, vv) => s.(tw := s.tw.(h := s.tw.h[k := vv]), next := s.next + 1)
        case WriteHeader(_) => if s.lock == Nobody then s.(lock := Handler, hpc := InWriter) else s
        case Write(_) => if s.lock == Nobody then s.(lock := Handler, hpc := InWriter) else s
        case Panic(v) => s.(hpc := Panicking(Raised(v)))
        case Vanish => s.(hpc := Vanished))
    case InWriter =>
      if s.next >= |s.ops| then s
      else (
        match s.ops[s.next]
        case WriteHeader(code) =>
          if ValidCode(code) then
            s.(tw := WriteHeaderLocked(s.tw, code), next := s.next + 1, hpc := Calling, lock := Nobody)
          else
            s.(hpc := Panicking(InvalidCode(code)), lock := Nobody)
        case Write(p) =>
          var (tw, ok) := Written(s.tw, p);
          s.(tw := tw, writes := s.writes + [ok], next := s.next + 1, hpc := Calling, lock := Nobody)
        case _ => s)
    case Panicking(p) => if s.panicChan == None then s.(panicChan := Some(p), hpc := Panicked) else s
    case _ => s
  }

  /** A ready branch of the select of the server goroutine. */
  datatype Branch = OnPanic | OnDone | OnContext

  predicate Ready(s: State, b: Branch) {
    match b
    case OnPanic => s.panicChan.Some?
    case OnDone => s.hpc == Closed
    case OnContext => s.ctx != Live
  }

  /** One step of the server goroutine; `b` is the branch its select takes. */
  function ServerStep(s: State, b: Branch): State {
    match s.spc
    case Waiting =>
      if !Ready(s, b) then s
      else (
        match b
        case OnPanic => s.(panicChan := None, spc := Finished(Repanicked(s.panicChan.value)))
        case OnDone => s.(spc := WantCopy)
        case OnContext => s.(spc := WantTimeout))
    case WantCopy => if s.lock == Nobody then s.(lock := Server, spc := CopyingHeaders) else s
    case CopyingHeaders =>
      var tw := if s.tw.wroteHeader then s.tw else s.tw.(code := STATUS_OK);
      s.(w := s.w.(headers := s.w.headers + s.tw.h), tw := tw, spc := CopyingStatus)
    case CopyingStatus => s.(w := s.w.(status := Some(s.tw.code)), spc := CopyingBody)
    case CopyingBody => s.(w := s.w.(body := s.w.body + s.tw.wbuf), spc := Leaving(Completed))
    case WantTimeout => if s.lock == Nobody then s.(lock := Server, spc := TimeoutStatus) else s
    case TimeoutStatus =>
      var status := if s.ctx == Canceled then STATUS_CLIENT_CLOSED_REQUEST else STATUS_SERVICE_UNAVAILABLE;
      s.(w := s.w.(status := Some(status)), spc := TimeoutBody)
    case TimeoutBody => s.(w := s.w.(body := s.w.body + REASON), spc := TimeoutMark)
    case TimeoutMark => s.(tw := s.tw.(timedOut := true), spc := Leaving(TimedOut))
    case Leaving(how) => s.(lock := Nobody, spc := Finished(how))
    case Finished(_) => s
  }

  datatype Event = HandlerMoves | ServerMoves(b: Branch) | ContextEnds(canceled: bool)

  function Step(s: State, e: Event): State {
    match e
    case HandlerMoves => HandlerStep(s)
    case ServerMoves(b) => ServerStep(s, b)
    case ContextEnds(canceled) =>
      if s.ctx == Live then s.(ctx := if canceled then Canceled else DeadlineExceeded) else s
  }

  function Run(ops: seq<Op>, headers: Header, events: seq<Event>): State {
    if events == [] then Init(ops, headers)
    else Step(Run(ops, headers, events[..|events| - 1]), events[|events| - 1])
  }

  // ----- what the handler asked for, read off its calls alone

  /** The headers set, the last setting of a key counting. */
  function HeadersOf(ops: seq<Op>): Header {
    if ops == [] then map[]
    else
      var rest := HeadersOf(ops[..|ops| - 1]);
      match ops[|ops| - 1]
      case SetHeader(k, vv) => rest[k := vv]
      case _ => rest
  }

  /** The bytes of all writes in order. */
  function BodyOf(ops: seq<Op>): Bytes {
    if ops == [] then []
    else
      var rest := BodyOf(ops[..|ops| - 1]);
      match ops[|ops| - 1]
      case Write(p) => rest + p
      case _ => rest
  }

  /** The status that counts: the first one given, with a first write giving 200. */
  function StatusOf(ops: seq<Op>): Option<int> {
    if ops == [] then None
    else
      match ops[0]
      case WriteHeader(code) => Some(code)
      case Write(_) => Some(STATUS_OK)
      case _ => StatusOf(ops[1..])
  }

  /** What stops the handler at a call, if anything. */
  function StopOf(op: Op): Option<Option<PanicValue>> {
    match op
    case Panic(v) => Some(Some(Raised(v)))
    case WriteHeader(code) => if ValidCode(code) then None else Some(Some(InvalidCode(code)))
    case Vanish => Some(None)
    case _ => None
  }

  predicate Clean(ops: seq<Op>) {
    forall i :: 0 <= i < |ops| ==> StopOf(ops[i]) == None
  }

  lemma {:induction false} StatusAppend(ops: seq<Op>, op: Op)
    ensures StatusOf(ops + [op])
         == if StatusOf(ops).Some? then StatusOf(ops)
            else match op { case WriteHeader(code) => Some(code) case Write(_) => Some(STATUS_OK) case _ => None }
  {
    if ops == [] {
      assert (ops + [op])[1..] == [];
    } else {
      assert (ops + [op])[1..] == ops[1..] + [op];
      StatusAppend(ops[1..], op);
    }
  }

  /** The buffered writer holds what the calls so far asked for. */
  ghost predicate Buffers(tw: Writer, ops: seq<Op>) {
    && tw.h == HeadersOf(ops)
    && tw.wbuf == BodyOf(ops)
    && (tw.wroteHeader <==> StatusOf(ops).Some?)
    && (tw.wroteHeader ==> tw.code == StatusOf(ops).value)
  }

  /** The panic that the handler is about to report, has reported or had reported. */
  ghost predicate PanicsWith(s: State, p: PanicValue) {
    s.next < |s.ops| && StopOf(s.ops[s.next]) == Some(Some(p))
  }

  ghost predicate HandlerInv(s: State) {
    && s.next <= |s.ops|
    && Clean(s.ops[..s.next])
    && (s.hpc == InWriter ==>
          s.lock == Handler && s.next < |s.ops| && (s.ops[s.next].Write? || s.ops[s.next].WriteHeader?))
    && (s.lock == Handler ==> s.hpc == InWriter)
    && (s.hpc == Closed ==> s.next == |s.ops|)
    && (s.hpc.Panicking? ==> PanicsWith(s, s.hpc.p) && s.panicChan == None)
    && (s.panicChan.Some? ==> s.hpc == Panicked && PanicsWith(s, s.panicChan.value))
    && (s.hpc == Panicked ==> s.next < |s.ops|)
    && (s.hpc == Panicked ==> s.panicChan.Some? || s.spc.Finished?)
  }

  predicate Copies(pc: ServerPc) {
    pc.CopyingHeaders? || pc.CopyingStatus? || pc.CopyingBody? || pc == Leaving(Completed)
  }

  predicate Times(pc: ServerPc) {
    pc.TimeoutStatus? || pc.TimeoutBody? || pc.TimeoutMark? || pc == Leaving(TimedOut)
  }

  /** How far the response is, as the server goroutine goes along. */
  ghost predicate ServerInv(s: State, headers: Header) {
    && (s.lock == Server <==> Copies(s.spc) || Times(s.spc))
    && (s.tw.timedOut <==> s.spc == Leaving(TimedOut) || s.spc == Finished(TimedOut))
    && (s.spc.WantCopy? || Copies(s.spc) || s.spc == Finished(Completed) ==> s.hpc == Closed)
    && (s.spc.WantTimeout? || Times(s.spc) || s.spc == Finished(TimedOut) ==> s.ctx != Live)
    && (s.spc.Leaving? ==> !s.spc.how.Repanicked?)
    && (match s.spc
        case Waiting => s.w == Response(headers, None, [])
        case WantCopy => s.w == Response(headers, None, [])
        case CopyingHeaders => s.w == Response(headers, None, [])
        case CopyingStatus => s.w == Response(headers + s.tw.h, None, []) && s.tw.code == Or(StatusOf(s.ops), STATUS_OK)
        case CopyingBody => s.w == Response(headers + s.tw.h, Some(Or(StatusOf(s.ops), STATUS_OK)), [])
        case WantTimeout => s.w == Response(headers, None, [])
        case TimeoutStatus => s.w == Response(headers, None, [])
        case TimeoutBody => s.w == Response(headers, Some(TimeoutCode(s.ctx)), [])
        case TimeoutMark => s.w == Response(headers, Some(TimeoutCode(s.ctx)), REASON)
        case Leaving(how) => Delivered(s, headers, how)
        case Finished(how) => Delivered(s, headers, how))
  }

  function Or(o: Option<int>, otherwise: int): int {
    if o.Some? then o.value else otherwise
  }

  function TimeoutCode(ctx: Context): int {
    if ctx == Canceled then STATUS_CLIENT_CLOSED_REQUEST else STATUS_SERVICE_UNAVAILABLE
  }

  /** The three responses there can be. */
  ghost predicate Delivered(s: State, headers: Header, how: Outcome) {
    match how
    case Completed =>
      && Clean(s.ops)
      && s.w == Response(headers + HeadersOf(s.ops), Some(Or(StatusOf(s.ops), STATUS_OK)), BodyOf(s.ops))
    case TimedOut => s.ctx != Live && s.w == Response(headers, Some(TimeoutCode(s.ctx)), REASON)
    case Repanicked(p) => PanicsWith(s, p) && s.hpc == Panicked && s.w == Response(headers, None, [])
  }

  ghost predicate Inv(s: State, headers: Header) {
    && HandlerInv(s)
    && ServerInv(s, headers)
    && BufferInv(s)
  }

  ghost predicate BufferInv(s: State) {
    && s.next <= |s.ops|
    && (Open(s.spc) ==> Buffers(s.tw, s.ops[..s.next]))
    && (s.spc == CopyingStatus || s.spc == CopyingBody ==> s.tw.h == HeadersOf(s.ops) && s.tw.wbuf == BodyOf(s.ops))
  }

  /** The writer still takes what the handler sends. */
  predicate Open(pc: ServerPc) {
    pc != CopyingStatus && pc != CopyingBody && !pc.Leaving? && !pc.Finished?
  }

  /** A call that the writer took, or a header that was set, extends what is buffered. */
  lemma BuffersNext(tw: Writer, ops: seq<Op>, next: nat, tw': Writer)
    requires next < |ops| && Buffers(tw, ops[..next]) && !tw.timedOut
    requires tw' == match ops[next] {
               case SetHeader(k, vv) => tw.(h := tw.h[k := vv])
               case WriteHeader(code) => WriteHeaderLocked(tw, code)
               case Write(p) => Written(tw, p).0
               case _ => tw
             }
    ensures Buffers(tw', ops[..next + 1])
  {
    var before, after := ops[..next], ops[..next + 1];
    assert after == before + [ops[next]] && after[..|after| - 1] == before;
    StatusAppend(before, ops[next]);
  }

  lemma CleanNext(ops: seq<Op>, next: nat)
    requires next < |ops| && Clean(ops[..next]) && StopOf(ops[next]) == None
    ensures Clean(ops[..next + 1])
  {
    assert ops[..next + 1] == ops[..next] + [ops[next]];
  }

  lemma HandlerKeepsHandlerInv(s: State)
    requires HandlerInv(s)
    ensures HandlerInv(HandlerStep(s))
  {
    if HandlerStep(s).next == s.next + 1 {
      CleanNext(s.ops, s.next);
    }
  }

  /** A handler that has not ended leaves everything but its own part alone. */
  lemma HandlerFrame(s: State)
    requires HandlerInv(s)
    ensures var s' := HandlerStep(s);
      && (s'.ops, s'.spc, s'.ctx, s'.w, s'.tw.timedOut) == (s.ops, s.spc, s.ctx, s.w, s.tw.timedOut)
      && (s'.lock == Server <==> s.lock == Server)
      && (s.hpc == Closed || s.hpc == Panicked ==> s' == s)
  {
  }

  lemma HandlerKeepsBuffers(s: State, headers: Header)
    requires Inv(s, headers)
    ensures BufferInv(HandlerStep(s))
  {
    var s' := HandlerStep(s);
    HandlerFrame(s);
    if s'.next == s.next + 1 && Open(s.spc) {
      BuffersNext(s.tw, s.ops, s.next, s'.tw);
    }
  }

  lemma HandlerStepKeepsInv(s: State, headers: Header)
    requires Inv(s, headers)
    ensures Inv(HandlerStep(s), headers)
  {
    HandlerKeepsHandlerInv(s);
    HandlerKeepsBuffers(s, headers);
    HandlerFrame(s);
  }

  lemma ServerKeepsHandlerInv(s: State, b: Branch, headers: Header)
    requires HandlerInv(s) && ServerInv(s, headers)
    ensures HandlerInv(ServerStep(s, b))
  {
  }

  /** When the handler has returned, the writer holds its whole response. */
  lemma WholeResponse(s: State)
    requires HandlerInv(s) && s.hpc == Closed
    ensures s.ops[..s.next] == s.ops && Clean(s.ops)
  {
  }

  lemma SelectKeepsServerInv(s: State, b: Branch, headers: Header)
    requires Inv(s, headers) && (s.spc.Waiting? || s.spc.WantCopy? || s.spc.WantTimeout?)
    ensures ServerInv(ServerStep(s, b), headers)
  {
  }

  lemma CopyKeepsServerInv(s: State, b: Branch, headers: Header)
    requires Inv(s, headers) && Copies(s.spc)
    ensures ServerInv(ServerStep(s, b), headers)
  {
    WholeResponse(s);
  }

  lemma TimeoutKeepsServerInv(s: State, b: Branch, headers: Header)
    requires Inv(s, headers) && (Times(s.spc) || s.spc.Finished?)
    ensures ServerInv(ServerStep(s, b), headers)
  {
  }

  lemma ServerKeepsServerInv(s: State, b: Branch, headers: Header)
    requires Inv(s, headers)
    ensures ServerInv(ServerStep(s, b), headers)
  {
    if s.spc.Waiting? || s.spc.WantCopy? || s.spc.WantTimeout? {
      SelectKeepsServerInv(s, b, headers);
    } else if Copies(s.spc) {
      CopyKeepsServerInv(s, b, headers);
    } else {
      assert s.spc.Leaving? ==> !s.spc.how.Repanicked?;
      TimeoutKeepsServerInv(s, b, headers);
    }
  }

  lemma ServerKeepsBuffers(s: State, b: Branch, headers: Header)
    requires Inv(s, headers)
    ensures BufferInv(ServerStep(s, b))
  {
    if s.hpc == Closed {
      WholeResponse(s);
    }
  }

  lemma ServerStepKeepsInv(s: State, b: Branch, headers: Header)
    requires Inv(s, headers)
    ensures Inv(ServerStep(s, b), headers)
  {
    ServerKeepsHandlerInv(s, b, headers);
    ServerKeepsServerInv(s, b, headers);
    ServerKeepsBuffers(s, b, headers);
  }

  lemma {:induction false} InvAlways(ops: seq<Op>, headers: Header, events: seq<Event>)
    ensures Inv(Run(ops, headers, events), headers) && Run(ops, headers, events).ops == ops
  {
    if events == [] {
      InitInv(ops, headers);
    } else {
      InvAlways(ops, headers, events[..|events| - 1]);
      StepKeepsInv(Run(ops, headers, events[..|events| - 1]), events[|events| - 1], headers);
    }
  }

  lemma InitInv(ops: seq<Op>, headers: Header)
    ensures Inv(Init(ops, headers), headers)
  {
    assert ops[..0] == [];
  }

  lemma StepKeepsInv(s: State, e: Event, headers: Header)
    requires Inv(s, headers)
    ensures Inv(Step(s, e), headers) && Step(s, e).ops == s.ops
  {
    match e
    case HandlerMoves => HandlerStepKeepsInv(s, headers);
    case ServerMoves(b) => ServerStepKeepsInv(s, b, headers);
    case ContextEnds(canceled) => ContextKeepsInv(s, canceled, headers);
  }

  lemma ContextKeepsInv(s: State, canceled: bool, headers: Header)
    requires Inv(s, headers)
    ensures Inv(Step(s, ContextEnds(canceled)), headers)
  {
    assert s.ctx == Live ==> !Times(s.spc) && s.spc != Finished(TimedOut);
  }

  /**
   In every interleaving the client sees one of three things and never a mixture: nothing at all when
   the handler's panic is raised again; everything the handler asked for; or the timeout response alone.
   */
  lemma OneOfThreeOutcomes(ops: seq<Op>, headers: Header, events: seq<Event>)
    ensures var s := Run(ops, headers, events);
      s.spc.Finished? ==>
        match s.spc.how {
          case Completed =>
            Clean(ops)
            && s.w == Response(headers + HeadersOf(ops), Some(Or(StatusOf(ops), STATUS_OK)), BodyOf(ops))
          case TimedOut =>
            && s.ctx != Live
            && s.w == Response(headers, Some(if s.ctx == Canceled then 499 else 503), "Request Timeout")
          case Repanicked(p) =>
            s.next < |ops| && Clean(ops[..s.next]) && StopOf(ops[s.next]) == Some(Some(p))
            && s.w == Response(headers, None, [])
        }
  {
    InvAlways(ops, headers, events);
  }

  lemma StepAfterTimeout(s: State, e: Event)
    requires s.tw.timedOut && (s.spc == Leaving(TimedOut) || s.spc == Finished(TimedOut))
    ensures var s' := Step(s, e);
      && s'.tw == s.tw.(h := s'.tw.h) && s'.w == s.w
      && (s'.writes == s.writes || s'.writes == s.writes + [false])
      && (s'.spc == Leaving(TimedOut) || s'.spc == Finished(TimedOut))
  {
  }

  /** The run that goes on from a state. */
  function RunFrom(s: State, events: seq<Event>): State {
    if events == [] then s else Step(RunFrom(s, events[..|events| - 1]), events[|events| - 1])
  }

  lemma {:induction false} RunGoesOn(ops: seq<Op>, headers: Header, before: seq<Event>, after: seq<Event>)
    ensures Run(ops, headers, before + after) == RunFrom(Run(ops, headers, before), after)
  {
    if after == [] {
      assert before + after == before;
    } else {
      assert (before + after)[..|before + after| - 1] == before + after[..|after| - 1];
      RunGoesOn(ops, headers, before, after[..|after| - 1]);
    }
  }

  /** Nothing but failed writes is added. */
  ghost predicate OnlyFailures(writes: seq<bool>, more: seq<bool>) {
    |writes| <= |more| && more[..|writes|] == writes && forall i :: |writes| <= i < |more| ==> !more[i]
  }

  lemma {:induction false} FrozenFrom(s: State, events: seq<Event>)
    requires s.tw.timedOut && (s.spc == Leaving(TimedOut) || s.spc == Finished(TimedOut))
    ensures var t := RunFrom(s, events);
      && t.tw == s.tw.(h := t.tw.h) && t.w == s.w && OnlyFailures(s.writes, t.writes)
      && (t.spc == Leaving(TimedOut) || t.spc == Finished(TimedOut))
  {
    if events != [] {
      FrozenFrom(s, events[..|events| - 1]);
      StepAfterTimeout(RunFrom(s, events[..|events| - 1]), events[|events| - 1]);
    }
  }

  /**
   Once a run has timed out, whatever happens after it: the buffered bytes and the status are frozen,
   the response stays as it is, and every further write fails.
   */
  lemma FrozenAfterTimeout(ops: seq<Op>, headers: Header, before: seq<Event>, after: seq<Event>)
    requires Run(ops, headers, before).tw.timedOut
    ensures var s, t := Run(ops, headers, before), Run(ops, headers, before + after);
      && (t.tw.wbuf, t.tw.code, t.tw.wroteHeader, t.tw.timedOut) == (s.tw.wbuf, s.tw.code, s.tw.wroteHeader, true)
      && t.w == s.w
      && OnlyFailures(s.writes, t.writes)
  {
    InvAlways(ops, headers, before);
    RunGoesOn(ops, headers, before, after);
    FrozenFrom(Run(ops, headers, before), after);
  }

  /** How many of some calls are writes. */
  function WritesOf(ops: seq<Op>): nat {
    if ops == [] then 0
    else WritesOf(ops[..|ops| - 1]) + (if ops[|ops| - 1].Write? then 1 else 0)
  }

  /** One answer for each write made, a success as long as no timeout is marked. */
  ghost predicate Answered(s: State) {
    && s.next <= |s.ops|
    && |s.writes| == WritesOf(s.ops[..s.next])
    && (!s.tw.timedOut ==> AllSucceed(s.writes))
  }

  ghost predicate AllSucceed(writes: seq<bool>) {
    forall i :: 0 <= i < |writes| ==> writes[i]
  }

  lemma HandlerAnswers(s: State)
    requires HandlerInv(s) && Answered(s)
    ensures Answered(HandlerStep(s))
  {
    if HandlerStep(s).next == s.next + 1 {
      assert s.ops[..s.next + 1][..s.next] == s.ops[..s.next];
    }
  }

  lemma ServerAnswersNothing(s: State, b: Branch)
    ensures var s' := ServerStep(s, b);
      (s'.ops, s'.next, s'.writes) == (s.ops, s.next, s.writes) && (s.tw.timedOut ==> s'.tw.timedOut)
  {
  }

  lemma StepAnswers(s: State, e: Event, headers: Header)
    requires Inv(s, headers) && Answered(s)
    ensures Answered(Step(s, e))
  {
    match e
    case HandlerMoves => HandlerAnswers(s);
    case ServerMoves(b) => ServerAnswersNothing(s, b);
    case ContextEnds(_) =>
  }

  /**
   In every run each write the handler has made has an answer, in order, and until the server has marked
   the timeout all of them are successes.
   */
  lemma {:induction false} WritesSucceedUntilTimeout(ops: seq<Op>, headers: Header, events: seq<Event>)
    ensures var s := Run(ops, headers, events);
      && s.next <= |ops| && |s.writes| == WritesOf(ops[..s.next])
      && (!s.tw.timedOut ==> forall i :: 0 <= i < |s.writes| ==> s.writes[i])
  {
    if events != [] {
      var before := events[..|events| - 1];
      InvAlways(ops, headers, before);
      InvAlways(ops, headers, events);
      WritesSucceedUntilTimeout(ops, headers, before);
      StepAnswers(Run(ops, headers, before), events[|events| - 1], headers);
    }
  }

  /**
   So the answers of any run are successes up to the moment at which the timeout is marked and failures
   from then on.
   */
  lemma WritesSplitAtTimeout(ops: seq<Op>, headers: Header, before: seq<Event>, e: Event, after: seq<Event>)
    requires !Run(ops, headers, before).tw.timedOut && Run(ops, headers, before + [e]).tw.timedOut
    ensures var n := |Run(ops, headers, before).writes|;
      var writes := Run(ops, headers, before + [e] + after).writes;
      n <= |writes| && forall i :: 0 <= i < |writes| ==> (writes[i] <==> i < n)
  {
    WritesSucceedUntilTimeout(ops, headers, before);
    InvAlways(ops, headers, before);
    assert (before + [e])[..|before|] == before;
    var (s, marked) := (Run(ops, headers, before), Run(ops, headers, before + [e]));
    MarkingWritesNothing(s, e, headers);
    FrozenAfterTimeout(ops, headers, before + [e], after);
    SplitAt(marked.writes, Run(ops, headers, before + [e] + after).writes);
  }

  lemma MarkingWritesNothing(s: State, e: Event, headers: Header)
    requires Inv(s, headers) && !s.tw.timedOut && Step(s, e).tw.timedOut
    ensures Step(s, e).writes == s.writes
  {
    if e.ServerMoves? {
      ServerAnswersNothing(s, e.b);
    } else if e.HandlerMoves? {
      HandlerFrame(s);
    }
  }

  lemma SplitAt(writes: seq<bool>, more: seq<bool>)
    requires AllSucceed(writes) && OnlyFailures(writes, more)
    ensures forall i :: 0 <= i < |more| ==> (more[i] <==> i < |writes|)
  {
    forall i | 0 <= i < |writes| ensures more[i] {
      assert more[..|writes|][i] == writes[i];
    }
  }

  /** Some step of the handler or of the server changes the state. */
  ghost predicate SomebodyCanMove(s: State) {
    HandlerStep(s) != s || exists b: Branch :: ServerStep(s, b) != s
  }

  /** The handler is gone without a trace, and the server has only the context to wait for. */
  predicate WaitsInVain(s: State) {
    s.ctx == Live && s.hpc == Vanished
  }

  lemma WaitingCanMove(s: State, headers: Header)
    requires Inv(s, headers) && !s.spc.Finished? && !WaitsInVain(s)
    ensures SomebodyCanMove(s)
  {
    if s.spc == Waiting {
      if s.ctx != Live {
        assert ServerStep(s, OnContext) != s;
      } else if s.hpc == Closed {
        assert ServerStep(s, OnDone) != s;
      } else if s.panicChan.Some? {
        assert ServerStep(s, OnPanic) != s;
      }
    } else if s.lock != Handler {
      assert ServerStep(s, OnContext) != s;
    }
    if s.hpc == Calling && s.next < |s.ops| && s.ops[s.next].SetHeader? {
      assert HandlerStep(s).next != s.next;
    }
  }

  lemma NothingMovesInVain(s: State, headers: Header)
    requires Inv(s, headers) && !s.spc.Finished? && WaitsInVain(s)
    ensures !SomebodyCanMove(s)
  {
  }

  /**
   A run that has not finished is stuck exactly when the handler has vanished, as by panic(nil), and the
   context is still alive: then nothing moves until the deadline. And no handler is left blocked on
   reporting a panic.
   */
  lemma StuckExactly(ops: seq<Op>, headers: Header, events: seq<Event>)
    ensures var s := Run(ops, headers, events);
      && (!s.spc.Finished? ==> (SomebodyCanMove(s) <==> !WaitsInVain(s)))
      && (s.spc.Finished? && s.hpc != Closed && s.hpc != Panicked && s.hpc != Vanished ==> HandlerStep(s) != s)
  {
    InvAlways(ops, headers, events);
    var s := Run(ops, headers, events);
    if !s.spc.Finished? {
      if WaitsInVain(s) {
        NothingMovesInVain(s, headers);
      } else {
        WaitingCanMove(s, headers);
      }
    }
    if s.hpc == Calling && s.next < |s.ops| && s.ops[s.next].SetHeader? {
      assert HandlerStep(s).next != s.next;
    }
  }

  /** A handler that does nothing but panic(nil) leads there in one step. */
  lemma VanishedHandlerIsWaitedFor(headers: Header)
    ensures var s := Run([Vanish], headers, [HandlerMoves]);
      !s.spc.Finished? && WaitsInVain(s) && !SomebodyCanMove(s)
  {
    assert [HandlerMoves][..0] == [];
    assert Run([Vanish], headers, [HandlerMoves]) == HandlerStep(Init([Vanish], headers));
    StuckExactly([Vanish], headers, [HandlerMoves]);
  }
}
