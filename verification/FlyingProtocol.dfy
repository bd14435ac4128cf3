/**
 The shedder's request counter under concurrency: the counter is atomic, and its moving average is
 guarded by a spin lock built from one compare-and-swap word.
 */
module FlyingProtocol {
  import opened Shedding

  /** Where a goroutine stands in addFlying or highThru. */
  datatype Pc =
    | Idle
    // the atomic add returned `f`; spinning for the lock
    | WantUpdate(f: int)
    | UpdateLocked(f: int)
    | UpdateLoaded(f: int, avg: real)
    | UpdateStored
    | WantRead
    | ReadLocked
    | ReadLoaded(avg: real)

  datatype Action = Admit | Finish | AskAverage | Proceed

  /** `applied` records the counter values in the order in which they were averaged in. */
  datatype State = State(
    lock: int, flying: int, avg: real, threads: seq<Pc>,
    admitted: nat, finished: nat, peak: int, applied: seq<int>)

  predicate Holds(pc: Pc) {
    pc.UpdateLocked? || pc.UpdateLoaded? || pc.UpdateStored? || pc.ReadLocked? || pc.ReadLoaded?
  }

  /** A successful compare-and-swap from 0 to 1; otherwise the goroutine spins. */
  function TryLock(s: State, i: int, inside: Pc): State
    requires 0 <= i < |s.threads|
  {
    if s.lock == 0 then s.(lock := 1, threads := s.threads[i := inside]) else s
  }

  /** One atomic step of goroutine `i`. A goroutine finishes a request only if one is in flight. */
  function Step(s: State, i: int, a: Action): (s': State)
    requires 0 <= i < |s.threads|
    ensures |s'.threads| == |s.threads|
  {
    match s.threads[i]
    case Idle =>
      (match a
       case Admit =>
         var f := s.flying + 1;
         s.(flying := f, admitted := s.admitted + 1, peak := if f > s.peak then f else s.peak)
       case Finish =>
         if s.admitted <= s.finished then s
         else
           s.(flying := s.flying - 1, finished := s.finished + 1, threads := s.threads[i := WantUpdate(s.flying - 1)])
       case AskAverage => s.(threads := s.threads[i := WantRead])
       case Proceed => s)
    case WantUpdate(f) => TryLock(s, i, UpdateLocked(f))
    case UpdateLocked(f) => s.(threads := s.threads[i := UpdateLoaded(f, s.avg)])
    case UpdateLoaded(f, avg) =>
      s.(avg := Smooth(avg, f), applied := s.applied + [f], threads := s.threads[i := UpdateStored])
    case UpdateStored => s.(lock := 0, threads := s.threads[i := Idle])
    case WantRead => TryLock(s, i, ReadLocked)
    case ReadLocked => s.(threads := s.threads[i := ReadLoaded(s.avg)])
    case ReadLoaded(_) => s.(lock := 0, threads := s.threads[i := Idle])
  }

  type Schedule = seq<(nat, Action)>

  function Init(n: nat): State {
    State(0, 0, 0.0, seq(n, _ => Idle), 0, 0, 0, [])
  }

  /** Any schedule of steps; one that names no goroutine changes nothing. */
  function Run(n: nat, schedule: Schedule): (s: State)
    ensures |s.threads| == n
  {
    if schedule == [] then Init(n)
    else
      var s := Run(n, schedule[..|schedule| - 1]);
      var (i, a) := schedule[|schedule| - 1];
      if i < n then Step(s, i, a) else s
  }

  /** The average that folding the finished counts, one after the other, would give. */
  function Averaged(applied: seq<int>): real {
    if applied == [] then 0.0
    else Smooth(Averaged(applied[..|applied| - 1]), applied[|applied| - 1])
  }

  ghost predicate ThreadOk(s: State, pc: Pc) {
    match pc
    case WantUpdate(f) => 0 <= f <= s.peak
    case UpdateLocked(f) => 0 <= f <= s.peak
    case UpdateLoaded(f, avg) => 0 <= f <= s.peak && avg == s.avg
    case ReadLoaded(avg) => avg == s.avg
    case _ => true
  }

  ghost predicate Inv(s: State) {
    && s.flying == s.admitted - s.finished
    && 0 <= s.flying <= s.peak
    && (s.lock == 0 || s.lock == 1)
    && (s.lock == 0 ==> forall i :: 0 <= i < |s.threads| ==> !Holds(s.threads[i]))
    && (s.lock == 1 ==> exists i :: 0 <= i < |s.threads| && Holds(s.threads[i]))
    && (forall i, j :: 0 <= i < j < |s.threads| ==> !(Holds(s.threads[i]) && Holds(s.threads[j])))
    && (forall i :: 0 <= i < |s.threads| ==> ThreadOk(s, s.threads[i]))
    && s.avg == Averaged(s.applied)
    && 0.0 <= s.avg <= s.peak as real
  }

  lemma SmoothBetween(avg: real, f: int, lo: real, hi: real)
    requires lo <= avg <= hi && lo <= f as real <= hi
    ensures lo <= Smooth(avg, f) <= hi
  {
  }

  lemma StepKeepsInv(s: State, i: int, a: Action)
    requires Inv(s) && 0 <= i < |s.threads|
    ensures Inv(Step(s, i, a))
  {
    var s' := Step(s, i, a);
    var pc := s.threads[i];
    assert ThreadOk(s, pc);
    if pc.UpdateLoaded? {
      SmoothBetween(pc.avg, pc.f, 0.0, s.peak as real);
      assert s'.applied[..|s.applied|] == s.applied;
    }
    if s'.lock == 1 {
      if s.lock == 0 {
        assert Holds(s'.threads[i]);
      } else {
        var j :| 0 <= j < |s.threads| && Holds(s.threads[j]);
        assert Holds(s'.threads[j]);
      }
    }
  }

  /**
   In every schedule of any number of goroutines: the counter is the admitted minus the finished
   requests and never negative; at most one goroutine is inside the locked section, and a lock that is
   taken has one inside, so that it will be given back; and the average
   is what the finished counts give one after the other, none lost, so it stays between zero and the
   highest count there ever was.
   */
  lemma {:induction false} FlyingConserved(n: nat, schedule: Schedule)
    ensures var s := Run(n, schedule);
      && s.flying == s.admitted - s.finished >= 0
      && (forall i, j :: 0 <= i < j < n ==> !(Holds(s.threads[i]) && Holds(s.threads[j])))
      && (s.lock != 0 <==> exists i :: 0 <= i < n && Holds(s.threads[i]))
      && s.avg == Averaged(s.applied)
      && 0.0 <= s.avg <= s.peak as real
      && Inv(s)
  {
    if schedule != [] {
      FlyingConserved(n, schedule[..|schedule| - 1]);
      var (i, a) := schedule[|schedule| - 1];
      if i < n {
        StepKeepsInv(Run(n, schedule[..|schedule| - 1]), i, a);
      }
    }
  }

  /** Requests whose end has been counted but not yet averaged in. */
  function Pending(threads: seq<Pc>): nat {
    if threads == [] then 0
    else
      var pc := threads[|threads| - 1];
      Pending(threads[..|threads| - 1]) + (if pc.WantUpdate? || pc.UpdateLocked? || pc.UpdateLoaded? then 1 else 0)
  }

  lemma {:induction false} PendingUpdate(threads: seq<Pc>, i: int, pc: Pc)
    requires 0 <= i < |threads|
    ensures Pending(threads[i := pc]) == Pending(threads) - Pending([threads[i]]) + Pending([pc])
  {
    var n := |threads| - 1;
    assert [threads[i]][..0] == [] && [pc][..0] == [];
    if i == n {
      assert threads[i := pc][..n] == threads[..n];
    } else {
      assert threads[i := pc][..n] == threads[..n][i := pc];
      PendingUpdate(threads[..n], i, pc);
    }
  }

  lemma {:induction false} NonePending(n: nat)
    ensures Pending(seq(n, _ => Idle)) == 0
  {
    if n > 0 {
      assert seq(n, _ => Idle)[..n - 1] == seq(n - 1, _ => Idle);
      NonePending(n - 1);
    }
  }

  /** Each finished request is averaged in exactly once. */
  lemma {:induction false} AveragedOnce(n: nat, schedule: Schedule)
    ensures var s := Run(n, schedule);
      |s.applied| + Pending(s.threads) == s.finished
  {
    if schedule == [] {
      NonePending(n);
    } else {
      AveragedOnce(n, schedule[..|schedule| - 1]);
      var s := Run(n, schedule[..|schedule| - 1]);
      var (i, a) := schedule[|schedule| - 1];
      if i < n {
        var s' := Step(s, i, a);
        assert s'.threads == s.threads[i := s'.threads[i]];
        PendingUpdate(s.threads, i, s'.threads[i]);
      }
    }
  }
}
