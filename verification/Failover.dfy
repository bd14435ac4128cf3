/**
 The token limiter's switch to its in-process rescue limiter, and the monitor that switches back.
 Every step below is one atomic access of one goroutine to the shared fields.
 */
module Failover {

  datatype Pc =
    // a caller of reserveN
    | Idle
    | SawAlive
    | EvalFailed
    | Locked
    | MarkedStarted
    | StoredDead
    | Unlocking
    // the monitor goroutine
    | Polling
    | Pinged
    | StoredAlive
    | Leaving
    | LeavingDone
    | Ended

  datatype State = State(alive: int, started: bool, lock: bool, threads: seq<Pc>)

  function Goto(s: State, i: int, pc: Pc): State
    requires 0 <= i < |s.threads|
  {
    s.(threads := s.threads[i := pc])
  }

  function TakeLock(s: State, i: int, pc: Pc): State
    requires 0 <= i < |s.threads|
  {
    if s.lock then s else Goto(s, i, pc).(lock := true)
  }

  /** One step of goroutine `i`; `ok` is how a script run or a ping turns out. */
  function Step(s: State, i: int, ok: bool): State
    requires 0 <= i < |s.threads|
  {
    match s.threads[i]
    case Idle => if s.alive == 0 then s else Goto(s, i, SawAlive)
    case SawAlive => Goto(s, i, if ok then Idle else EvalFailed)
    case EvalFailed => TakeLock(s, i, Locked)
    case Locked => if s.started then Goto(s, i, Unlocking) else Goto(s, i, MarkedStarted).(started := true)
    case MarkedStarted => Goto(s, i, StoredDead).(alive := 0)
    case StoredDead => s.(threads := s.threads[i := Unlocking] + [Polling])
    case Unlocking => Goto(s, i, Idle).(lock := false)
    case Polling => if ok then Goto(s, i, Pinged) else s
    case Pinged => Goto(s, i, StoredAlive).(alive := 1)
    case StoredAlive => TakeLock(s, i, Leaving)
    case Leaving => Goto(s, i, LeavingDone).(started := false)
    case LeavingDone => Goto(s, i, Ended).(lock := false)
    case Ended => s
  }

  type Schedule = seq<(nat, bool)>

  function Init(callers: nat): State {
    State(1, false, false, seq(callers, _ => Idle))
  }

  function Run(callers: nat, schedule: Schedule): State {
    if schedule == [] then Init(callers)
    else
      var s := Run(callers, schedule[..|schedule| - 1]);
      var (i, ok) := schedule[|schedule| - 1];
      if i < |s.threads| then Step(s, i, ok) else s
  }

  predicate Holds(pc: Pc) {
    pc.Locked? || pc.MarkedStarted? || pc.StoredDead? || pc.Unlocking? || pc.Leaving? || pc.LeavingDone?
  }

  /** The goroutine that answers for the monitor: about to start it, being it, or taking it down. */
  predicate Owns(pc: Pc) {
    pc.MarkedStarted? || pc.StoredDead? || Probes(pc) || pc.StoredAlive? || pc.Leaving?
  }

  /** A monitor that has yet to store a successful ping. */
  predicate Probes(pc: Pc) {
    pc.Polling? || pc.Pinged?
  }

  /** On the way to marking Redis alive again. */
  predicate Revives(pc: Pc) {
    Probes(pc) || pc.StoredDead?
  }

  predicate Some(threads: seq<Pc>, p: Pc -> bool) {
    exists i :: 0 <= i < |threads| && p(threads[i])
  }

  predicate AtMostOne(threads: seq<Pc>, p: Pc -> bool) {
    forall i, j :: 0 <= i < j < |threads| ==> !(p(threads[i]) && p(threads[j]))
  }

  ghost predicate Inv(s: State) {
    && (s.alive == 0 || s.alive == 1)
    && AtMostOne(s.threads, Holds) && (s.lock <==> Some(s.threads, Holds))
    && AtMostOne(s.threads, Owns) && (s.started <==> Some(s.threads, Owns))
    && (s.alive == 0 <==> Some(s.threads, Revives))
  }

  /** Replacing one state keeps a property rare. */
  lemma RareUpdate(threads: seq<Pc>, i: int, pc: Pc, p: Pc -> bool)
    requires 0 <= i < |threads| && AtMostOne(threads, p)
    ensures p(threads[i]) || !p(pc) || !Some(threads, p) ==> AtMostOne(threads[i := pc], p)
    ensures Some(threads[i := pc], p) <==> p(pc) || (!p(threads[i]) && Some(threads, p))
  {
    if p(threads[i]) {
      forall j | 0 <= j < |threads| && j != i ensures !p(threads[j]) {
      }
    } else if Some(threads, p) {
      var j :| 0 <= j < |threads| && p(threads[j]);
      assert p(threads[i := pc][j]);
    }
    if p(pc) {
      assert p(threads[i := pc][i]);
    }
    if Some(threads[i := pc], p) {
      var j :| 0 <= j < |threads| && p(threads[i := pc][j]);
      assert j != i ==> p(threads[j]);
    }
  }

  lemma RareAppend(threads: seq<Pc>, pc: Pc, p: Pc -> bool)
    requires AtMostOne(threads, p)
    ensures !p(pc) || !Some(threads, p) ==> AtMostOne(threads + [pc], p)
    ensures Some(threads + [pc], p) <==> p(pc) || Some(threads, p)
  {
    if Some(threads, p) {
      var j :| 0 <= j < |threads| && p(threads[j]);
      assert p((threads + [pc])[j]);
    }
    if p(pc) {
      assert p((threads + [pc])[|threads|]);
    }
  }

  lemma UpdateAll(threads: seq<Pc>, i: int, pc: Pc)
    requires 0 <= i < |threads| && AtMostOne(threads, Holds) && AtMostOne(threads, Owns)
    ensures AtMostOne(threads, Revives)
    ensures Holds(threads[i]) || !Holds(pc) || !Some(threads, Holds) ==> AtMostOne(threads[i := pc], Holds)
    ensures Owns(threads[i]) || !Owns(pc) || !Some(threads, Owns) ==> AtMostOne(threads[i := pc], Owns)
    ensures Some(threads[i := pc], Holds) <==> Holds(pc) || (!Holds(threads[i]) && Some(threads, Holds))
    ensures Some(threads[i := pc], Owns) <==> Owns(pc) || (!Owns(threads[i]) && Some(threads, Owns))
    ensures Some(threads[i := pc], Revives) <==> Revives(pc) || (!Revives(threads[i]) && Some(threads, Revives))
  {
    forall j, k | 0 <= j < k < |threads| ensures !(Revives(threads[j]) && Revives(threads[k])) {
      assert !(Owns(threads[j]) && Owns(threads[k]));
    }
    RareUpdate(threads, i, pc, Holds);
    RareUpdate(threads, i, pc, Owns);
    RareUpdate(threads, i, pc, Revives);
  }

  lemma Member(s: State, i: int)
    requires Inv(s) && 0 <= i < |s.threads|
    ensures Holds(s.threads[i]) ==> s.lock
    ensures Owns(s.threads[i]) ==> s.started
    ensures Revives(s.threads[i]) ==> s.alive == 0
  {
  }

  /** Whoever revives also owns. */
  lemma RevivesOwns(threads: seq<Pc>)
    ensures Some(threads, Revives) ==> Some(threads, Owns)
  {
    if Some(threads, Revives) {
      var i :| 0 <= i < |threads| && Revives(threads[i]);
      assert Owns(threads[i]);
    }
  }

  /** A goroutine may move if the shared fields follow what it holds, owns and revives. */
  lemma MoveKeepsInv(s: State, i: int, pc: Pc, s': State)
    requires Inv(s) && 0 <= i < |s.threads| && s'.threads == s.threads[i := pc]
    requires Holds(pc) ==> Holds(s.threads[i]) || !s.lock
    requires Owns(pc) ==> Owns(s.threads[i]) || !s.started
    requires s'.lock == (Holds(pc) || (!Holds(s.threads[i]) && s.lock))
    requires s'.started == (Owns(pc) || (!Owns(s.threads[i]) && s.started))
    requires s'.alive == if Revives(pc) || (!Revives(s.threads[i]) && s.alive == 0) then 0 else 1
    ensures Inv(s')
  {
    UpdateAll(s.threads, i, pc);
  }

  lemma SpawnKeepsInv(s: State, i: int)
    requires Inv(s) && 0 <= i < |s.threads| && s.threads[i].StoredDead?
    ensures Inv(Step(s, i, true))
  {
    Member(s, i);
    var mid := State(1, false, true, s.threads[i := Unlocking]);
    MoveKeepsInv(s, i, Unlocking, mid);
    RevivesOwns(mid.threads);
    UpdateAll(mid.threads, i, Unlocking);
    RareAppend(mid.threads, Polling, Holds);
    RareAppend(mid.threads, Polling, Owns);
    RareAppend(mid.threads, Polling, Revives);
  }

  predicate Monitors(pc: Pc) {
    Probes(pc) || pc.StoredAlive? || pc.Leaving? || pc.LeavingDone? || pc.Ended?
  }

  lemma MonitorKeepsInv(s: State, i: int, ok: bool)
    requires Inv(s) && 0 <= i < |s.threads| && Monitors(s.threads[i])
    ensures Inv(Step(s, i, ok))
  {
    Member(s, i);
    var s' := Step(s, i, ok);
    assert s'.threads == s.threads[i := s'.threads[i]];
    MoveKeepsInv(s, i, s'.threads[i], s');
  }

  lemma CallerKeepsInv(s: State, i: int, ok: bool)
    requires Inv(s) && 0 <= i < |s.threads| && !Monitors(s.threads[i]) && !s.threads[i].StoredDead?
    ensures Inv(Step(s, i, ok))
  {
    Member(s, i);
    var s' := Step(s, i, ok);
    assert s'.threads == s.threads[i := s'.threads[i]];
    MoveKeepsInv(s, i, s'.threads[i], s');
  }

  lemma StepKeepsInv(s: State, i: int, ok: bool)
    requires Inv(s) && 0 <= i < |s.threads|
    ensures Inv(Step(s, i, ok))
  {
    if s.threads[i].StoredDead? {
      SpawnKeepsInv(s, i);
    } else if Monitors(s.threads[i]) {
      MonitorKeepsInv(s, i, ok);
    } else {
      CallerKeepsInv(s, i, ok);
    }
  }

  lemma {:induction false} InvAlways(callers: nat, schedule: Schedule)
    ensures Inv(Run(callers, schedule))
  {
    if schedule == [] {
      var s := Init(callers);
      assert forall i :: 0 <= i < callers ==> s.threads[i] == Idle;
    } else {
      InvAlways(callers, schedule[..|schedule| - 1]);
      var s := Run(callers, schedule[..|schedule| - 1]);
      var (i, ok) := schedule[|schedule| - 1];
      if i < |s.threads| {
        StepKeepsInv(s, i, ok);
      }
    }
  }

  /**
   In every schedule of any number of callers: while the limiter is in rescue mode, the monitor is
   marked as started and exactly one goroutine is on its way to end that mode, a monitor still to
   store its successful ping or the caller that is just starting it. Two monitors never probe.
   */
  lemma RescueIsAlwaysProbed(callers: nat, schedule: Schedule)
    ensures var s := Run(callers, schedule);
      && (s.alive == 0 ==> s.started)
      && (s.alive == 0 <==> exists i :: 0 <= i < |s.threads| && Revives(s.threads[i]))
      && (forall i, j :: 0 <= i < j < |s.threads| ==> !(Revives(s.threads[i]) && Revives(s.threads[j])))
      && (forall i, j :: 0 <= i < j < |s.threads| ==> !(Probes(s.threads[i]) && Probes(s.threads[j])))
  {
    InvAlways(callers, schedule);
    var s := Run(callers, schedule);
    RevivesOwns(s.threads);
    forall i, j | 0 <= i < j < |s.threads| ensures !(Revives(s.threads[i]) && Revives(s.threads[j])) {
      assert !(Owns(s.threads[i]) && Owns(s.threads[j]));
    }
    assert Some(s.threads, Revives) <==> exists i :: 0 <= i < |s.threads| && Revives(s.threads[i]);
  }

  /** From rescue mode, once Redis answers a ping, three steps lead back, whatever the other goroutines hold. */
  lemma RescueCanEnd(callers: nat, schedule: Schedule) returns (more: Schedule)
    requires Run(callers, schedule).alive == 0
    ensures |more| <= 3 && Run(callers, schedule + more).alive == 1
    ensures forall k :: 0 <= k < |more| ==> more[k].1
  {
    RescueIsAlwaysProbed(callers, schedule);
    var s := Run(callers, schedule);
    var i :| 0 <= i < |s.threads| && Revives(s.threads[i]);
    if s.threads[i].StoredDead? {
      RunMore(callers, schedule, (i, true));
      more := ProbeEnds(callers, schedule + [(i, true)], |s.threads|);
      more := [(i, true)] + more;
      assert schedule + more == schedule + [(i, true)] + more[1..];
    } else {
      more := ProbeEnds(callers, schedule, i);
    }
  }

  lemma ProbeEnds(callers: nat, schedule: Schedule, i: int) returns (more: Schedule)
    requires 0 <= i < |Run(callers, schedule).threads| && Probes(Run(callers, schedule).threads[i])
    ensures |more| <= 2 && Run(callers, schedule + more).alive == 1
    ensures forall k :: 0 <= k < |more| ==> more[k].1
  {
    var first := schedule + [(i, true)];
    RunMore(callers, schedule, (i, true));
    if Run(callers, schedule).threads[i].Polling? {
      assert Run(callers, first).threads[i] == Pinged;
      RunMore(callers, first, (i, true));
      more := [(i, true), (i, true)];
      assert schedule + more == first + [(i, true)];
    } else {
      more := [(i, true)];
    }
  }

  /** While nothing fails, no caller gets beyond asking Redis. */
  ghost predicate Untroubled(s: State) {
    && s.alive == 1 && !s.started && !s.lock
    && forall i :: 0 <= i < |s.threads| ==> s.threads[i].Idle? || s.threads[i].SawAlive?
  }

  /** As long as every script run succeeds, the limiter stays with Redis and no monitor is started. */
  lemma {:induction false} SuccessKeepsRedis(callers: nat, schedule: Schedule)
    requires forall k :: 0 <= k < |schedule| ==> schedule[k].1
    ensures var s := Run(callers, schedule);
      && s.alive == 1 && !s.started && |s.threads| == callers
      && forall i :: 0 <= i < callers ==> s.threads[i].Idle? || s.threads[i].SawAlive?
    ensures Untroubled(Run(callers, schedule))
  {
    if schedule != [] {
      SuccessKeepsRedis(callers, schedule[..|schedule| - 1]);
    }
  }

  /** The first failed script run leads to the rescue mode, with a monitor that probes. */
  lemma FailureStartsRescue(callers: nat, schedule: Schedule, i: nat) returns (more: Schedule)
    requires var s := Run(callers, schedule); i < |s.threads| && s.threads[i] == SawAlive && !s.started && !s.lock
    ensures more == schedule + [(i, false), (i, true), (i, true), (i, true), (i, true)]
    ensures var s := Run(callers, more);
      s.alive == 0 && s.started && |s.threads| == |Run(callers, schedule).threads| + 1 && Last(s.threads) == Polling
  {
    RunMore(callers, schedule, (i, false));
    more := schedule + [(i, false)];
    RunMore(callers, more, (i, true));
    more := more + [(i, true)];
    RunMore(callers, more, (i, true));
    more := MarkedEntersRescue(callers, more + [(i, true)], i);
  }

  lemma MarkedEntersRescue(callers: nat, schedule: Schedule, i: nat) returns (more: Schedule)
    requires var s := Run(callers, schedule); i < |s.threads| && s.threads[i] == MarkedStarted && s.started
    ensures more == schedule + [(i, true), (i, true)]
    ensures var s := Run(callers, more);
      s.alive == 0 && s.started && |s.threads| == |Run(callers, schedule).threads| + 1 && Last(s.threads) == Polling
  {
    RunMore(callers, schedule, (i, true));
    more := schedule + [(i, true)];
    RunMore(callers, more, (i, true));
    more := more + [(i, true)];
  }

  function Last(threads: seq<Pc>): Pc
    requires threads != []
  {
    threads[|threads| - 1]
  }

  /** In rescue mode, which no ping that is answered is about to end, asking Redis is left to those who do already. */
  ghost predicate StaysInRescue(before: State, s: State) {
    && s.alive == 0 && |before.threads| <= |s.threads|
    && forall j :: 0 <= j < |s.threads| ==>
         s.threads[j] != Pinged && (s.threads[j] == SawAlive ==> j < |before.threads| && before.threads[j] == SawAlive)
  }

  lemma FailureStaysInRescue(before: State, s: State, i: int)
    requires StaysInRescue(before, s) && 0 <= i < |s.threads|
    ensures StaysInRescue(before, Step(s, i, false))
  {
  }

  /**
   As long as no ping is answered the rescue mode lasts, whatever goroutines do, and no caller that was
   not asking Redis already begins to.
   */
  lemma {:induction false} RescueLasts(callers: nat, schedule: Schedule, more: Schedule)
    requires Run(callers, schedule).alive == 0 && Pinged !in Run(callers, schedule).threads
    requires forall k :: 0 <= k < |more| ==> !more[k].1
    ensures StaysInRescue(Run(callers, schedule), Run(callers, schedule + more))
    decreases |more|
  {
    if more == [] {
      assert schedule + more == schedule;
    } else {
      var n := |more| - 1;
      RescueLasts(callers, schedule, more[..n]);
      assert schedule + more == schedule + more[..n] + [more[n]];
      RunMore(callers, schedule + more[..n], more[n]);
      var s := Run(callers, schedule + more[..n]);
      if more[n].0 < |s.threads| {
        FailureStaysInRescue(Run(callers, schedule), s, more[n].0);
      }
    }
  }

  lemma RunMore(callers: nat, schedule: Schedule, step: (nat, bool))
    ensures Run(callers, schedule + [step])
         == var s := Run(callers, schedule); if step.0 < |s.threads| then Step(s, step.0, step.1) else s
  {
    assert (schedule + [step])[..|schedule|] == schedule;
  }
}
