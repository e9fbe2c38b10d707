/** cache_lock of scripts/run_incremental_lean.py: one lock file, contended for
    by threads of several processes.  A contender first takes the in-memory lock
    of its own process, then polls the operating-system lock on the file.

    The file lock is modelled with the weakest grain an operating system offers:
    it belongs to a process, so an attempt by another thread of the holding
    process succeeds, and closing the file drops it.  What keeps threads of one
    process apart is the in-memory lock alone. */
module CacheLock {
  import opened Options
  import opened Runs

  datatype Actor = Actor(process: nat, thread: nat)

  // Waiting: blocked on the process's own lock.  Polling: that lock is held and
  // the file lock is being tried.  Inside: both are held and the body runs.
  // Closing: the file lock is not held (any more) and the own lock still is.
  datatype Phase = Waiting | Polling | Inside | Closing

  // An actor without a phase is outside; a process without a thread has a free
  // in-memory lock.
  datatype State = State(phase: map<Actor, Phase>, threadLock: map<nat, nat>, fileLock: Option<nat>)

  datatype Step =
    | Arrive(a: Actor)
    | TakeThreadLock(a: Actor)
    | ThreadTimeout(a: Actor)
    | TryFileLock(a: Actor)
    | FileTimeout(a: Actor)   // or the file cannot be opened
    | EndBody(a: Actor)       // normally or by an exception: the file is unlocked
    | CloseAndLeave(a: Actor)
    | Crash(process: nat)

  const INIT: State := State(map[], map[], None)

  predicate IsIn(s: State, a: Actor, phase: Phase) {
    a in s.phase && s.phase[a] == phase
  }

  predicate Granted(s: State, a: Actor) {
    s.fileLock == None || s.fileLock == Some(a.process)
  }

  predicate Enabled(s: State, step: Step) {
    match step
    case Arrive(a) => a !in s.phase
    case TakeThreadLock(a) => IsIn(s, a, Waiting) && a.process !in s.threadLock
    case ThreadTimeout(a) => IsIn(s, a, Waiting)
    case TryFileLock(a) => IsIn(s, a, Polling)
    case FileTimeout(a) => IsIn(s, a, Polling)
    case EndBody(a) => IsIn(s, a, Inside)
    case CloseAndLeave(a) => IsIn(s, a, Closing)
    case Crash(_) => true
  }

  // The file lock once `process` has closed its stream, or died.
  function Dropped(fileLock: Option<nat>, process: nat): Option<nat> {
    if fileLock == Some(process) then None else fileLock
  }

  function Apply(s: State, step: Step): State {
    match step
    case Arrive(a) => s.(phase := s.phase[a := Waiting])
    case TakeThreadLock(a) =>
      s.(phase := s.phase[a := Polling], threadLock := s.threadLock[a.process := a.thread])
    case ThreadTimeout(a) => s.(phase := s.phase - {a})
    case TryFileLock(a) =>
      if Granted(s, a) then s.(phase := s.phase[a := Inside], fileLock := Some(a.process)) else s
    case FileTimeout(a) => s.(phase := s.phase[a := Closing])
    case EndBody(a) => s.(phase := s.phase[a := Closing], fileLock := None)
    case CloseAndLeave(a) =>
      State(s.phase - {a}, s.threadLock - {a.process}, Dropped(s.fileLock, a.process))
    case Crash(p) =>
      State(map a | a in s.phase && a.process != p :: s.phase[a], s.threadLock - {p}, Dropped(s.fileLock, p))
  }

  predicate OwnsThreadLock(s: State, a: Actor) {
    IsIn(s, a, Polling) || IsIn(s, a, Inside) || IsIn(s, a, Closing)
  }

  // The thread lock is held by exactly the thread that is past it.
  predicate ThreadLocksMatch(s: State) {
    OwnersHold(s) && HoldersOwn(s)
  }

  predicate OwnersHold(s: State) {
    forall a | a in s.phase && OwnsThreadLock(s, a) :: a.process in s.threadLock && s.threadLock[a.process] == a.thread
  }

  predicate HoldersOwn(s: State) {
    forall p | p in s.threadLock :: OwnsThreadLock(s, Actor(p, s.threadLock[p]))
  }

  // The file lock is held by exactly the process with a thread in the body.
  predicate FileLockMatches(s: State) {
    && (forall a | a in s.phase && IsIn(s, a, Inside) :: s.fileLock == Some(a.process))
    && (s.fileLock.Some? ==>
          var p := s.fileLock.value;
          p in s.threadLock && IsIn(s, Actor(p, s.threadLock[p]), Inside))
  }

  predicate Inv(s: State) {
    ThreadLocksMatch(s) && FileLockMatches(s)
  }

  lemma OwnersHoldKept(s: State, step: Step)
    requires ThreadLocksMatch(s) && Enabled(s, step)
    ensures OwnersHold(Apply(s, step))
  {
    var s' := Apply(s, step);
    assert forall a | a in s'.phase && !(!step.Crash? && a == step.a) :: a in s.phase && s'.phase[a] == s.phase[a];
  }

  lemma HoldersOwnKept(s: State, step: Step)
    requires ThreadLocksMatch(s) && Enabled(s, step)
    ensures HoldersOwn(Apply(s, step))
  {
    var s' := Apply(s, step);
    forall p | p in s'.threadLock ensures OwnsThreadLock(s', Actor(p, s'.threadLock[p])) {
      assert p in s.threadLock ==> OwnsThreadLock(s, Actor(p, s.threadLock[p]));
    }
  }

  lemma FileLockKept(s: State, step: Step)
    requires Inv(s) && Enabled(s, step)
    ensures FileLockMatches(Apply(s, step))
  {
    var s' := Apply(s, step);
    if s.fileLock.Some? {
      var holder := Actor(s.fileLock.value, s.threadLock[s.fileLock.value]);
      assert forall a | a in s.phase && IsIn(s, a, Inside) :: a == holder;
    }
    assert forall a | a in s'.phase && IsIn(s', a, Inside) :: IsIn(s, a, Inside) || step == TryFileLock(a);
  }

  lemma InvKept(s: State, step: Step)
    requires Inv(s) && Enabled(s, step)
    ensures Inv(Apply(s, step))
  {
    OwnersHoldKept(s, step);
    HoldersOwnKept(s, step);
    FileLockKept(s, step);
  }

  predicate Next(s: State, step: Step, s': State) {
    Enabled(s, step) && s' == Apply(s, step)
  }

  ghost predicate IsRun(states: seq<State>, steps: seq<Step>) {
    IsSegment(Next, states, steps) && states[0] == INIT
  }

  lemma RunKeepsInv(states: seq<State>, steps: seq<Step>, i: nat)
    requires IsRun(states, steps) && i < |states|
    ensures Inv(states[i])
  {
    forall s, step, s' | Inv(s) && Next(s, step, s') ensures Inv(s') {
      InvKept(s, step);
    }
    SegmentKeeps(Next, Inv, states, steps, i);
  }

  // Whatever threads and processes do, no two of them are in the body together.
  lemma MutualExclusion(states: seq<State>, steps: seq<Step>, i: nat, a: Actor, b: Actor)
    requires IsRun(states, steps) && i < |states|
    requires IsIn(states[i], a, Inside) && IsIn(states[i], b, Inside)
    ensures a == b
  {
    RunKeepsInv(states, steps, i);
  }

  // Leaving by any path gives back what was taken and nothing else: the actor
  // that left holds neither lock, and every other actor keeps its phase, its
  // thread lock and, when it is in the body, the file lock.
  lemma LeavesNothingBehind(s: State, step: Step)
    requires Inv(s) && Enabled(s, step) && (step.ThreadTimeout? || step.CloseAndLeave?)
    ensures var s', a := Apply(s, step), step.a;
            && a !in s'.phase
            && (a.process in s'.threadLock ==> s'.threadLock[a.process] != a.thread)
            && (s'.fileLock == s.fileLock)
            && (step.CloseAndLeave? ==> a.process !in s'.threadLock && s'.fileLock != Some(a.process))
            && (forall b | b != a :: b in s.phase <==> b in s'.phase)
            && (forall b | b in s'.phase :: s'.phase[b] == s.phase[b])
            && (forall p | p != a.process :: p in s.threadLock <==> p in s'.threadLock)
            && (forall p | p in s'.threadLock :: s'.threadLock[p] == s.threadLock[p])
  {
    var a := step.a;
    if step.CloseAndLeave? {
      assert OwnsThreadLock(s, a);
      assert s.threadLock[a.process] == a.thread;
      assert !IsIn(s, a, Inside);
      assert s.fileLock != Some(a.process);
    } else {
      assert !OwnsThreadLock(s, a);
    }
  }

  // No lock outlives the actors that took it.
  lemma NothingLeaks(states: seq<State>, steps: seq<Step>, i: nat)
    requires IsRun(states, steps) && i < |states| && states[i].phase == map[]
    ensures states[i] == INIT
  {
    RunKeepsInv(states, steps, i);
    var s := states[i];
    assert forall p | p in s.threadLock :: OwnsThreadLock(s, Actor(p, s.threadLock[p]));
    assert s.threadLock == map[];
  }

  // ----- The lock its users see -----

  // Who is in the body.
  function Holder(s: State): Option<Actor>
    requires Inv(s)
  {
    if s.fileLock.Some? then Some(Actor(s.fileLock.value, s.threadLock[s.fileLock.value])) else None
  }

  // Refinement: seen through its holder, the two-level lock is one atomic lock.
  // It goes from free to held by whoever got in, from held back to free when
  // that holder's body ends or its process dies, and otherwise stays put.
  lemma RefinesAtomicLock(s: State, step: Step)
    requires Inv(s) && Enabled(s, step)
    ensures Inv(Apply(s, step))
    ensures var before, after := Holder(s), Holder(Apply(s, step));
            match step
            case TryFileLock(a) => after == if before == None then Some(a) else before
            case EndBody(a) => before == Some(a) && after == None
            case Crash(p) => after == if before.Some? && before.value.process == p then None else before
            case _ => after == before
  {
    InvKept(s, step);
    match step
    case TryFileLock(a) =>
      assert OwnsThreadLock(s, a);
      assert !IsIn(s, a, Inside);
      assert s.fileLock != Some(a.process);
    case EndBody(a) => assert OwnsThreadLock(s, a);
    case TakeThreadLock(a) => assert s.fileLock != Some(a.process);
    case CloseAndLeave(a) =>
      assert OwnsThreadLock(s, a);
      assert !IsIn(s, a, Inside);
      assert s.fileLock != Some(a.process);
    case Crash(p) =>
    case Arrive(_) =>
    case ThreadTimeout(_) =>
    case FileTimeout(_) =>
  }

  // ----- Why the in-memory lock is needed -----

  // The same protocol with an in-memory lock that never makes anyone wait.
  predicate UnguardedNext(s: State, step: Step, s': State) {
    && s' == Apply(s, step)
    && match step
       case TakeThreadLock(a) => IsIn(s, a, Waiting)
       case _ => Enabled(s, step)
  }

  ghost predicate IsUnguardedRun(states: seq<State>, steps: seq<Step>) {
    IsSegment(UnguardedNext, states, steps) && states[0] == INIT
  }

  function Last(states: seq<State>): State
    requires states != []
  {
    states[|states| - 1]
  }

  lemma ExtendUnguarded(states: seq<State>, steps: seq<Step>, step: Step) returns (states': seq<State>, steps': seq<Step>)
    requires IsUnguardedRun(states, steps) && UnguardedNext(Last(states), step, Apply(Last(states), step))
    ensures IsUnguardedRun(states', steps') && Last(states') == Apply(Last(states), step)
  {
    states', steps' := states + [Apply(Last(states), step)], steps + [step];
  }

  // It has a run in which two threads of one process are in the body together.
  lemma FileLockAloneIsNotEnough(process: nat) returns (states: seq<State>, steps: seq<Step>)
    ensures IsUnguardedRun(states, steps)
    ensures IsIn(Last(states), Actor(process, 0), Inside) && IsIn(Last(states), Actor(process, 1), Inside)
  {
    var a, b := Actor(process, 0), Actor(process, 1);
    states, steps := [INIT], [];
    states, steps := ExtendUnguarded(states, steps, Arrive(a));
    states, steps := ExtendUnguarded(states, steps, TakeThreadLock(a));
    states, steps := ExtendUnguarded(states, steps, TryFileLock(a));
    states, steps := ExtendUnguarded(states, steps, Arrive(b));
    states, steps := ExtendUnguarded(states, steps, TakeThreadLock(b));
    states, steps := ExtendUnguarded(states, steps, TryFileLock(b));
  }
}
