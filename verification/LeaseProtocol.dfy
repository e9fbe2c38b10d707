/** The lease of scripts/lean_process_lease.py among all contenders of a host: any
    number of threads and processes, those started under the lease with the
    environment marker included, and crashes of any of them. */
module LeaseProtocol {
  import opened Options
  import opened Runs

  // Waiting also covers the sleep between attempts; Checking holds the lock and
  // looks at the memory reserves.
  datatype RootPhase = Waiting | Checking | Working

  // A contender started from inside a body carries the marker and enters its own
  // body without the lock.  Its ancestors are the bodies it was started from,
  // outermost first.
  datatype Contender = Root(phase: RootPhase) | Nested(ancestors: seq<nat>)

  // `crashed` and `used` record history; an identity is never used again.
  datatype State = State(contenders: map<nat, Contender>, lock: Option<nat>, used: set<nat>, crashed: set<nat>)

  datatype Step =
    | ArriveRoot(c: nat)
    | ArriveNested(c: nat, parent: nat)
    | TryLock(c: nat)
    | EndCheck(c: nat, admitted: bool)
    | GiveUp(c: nat)
    | Leave(c: nat)
    | Crash(c: nat)

  const INIT: State := State(map[], None, {}, {})

  predicate IsRoot(s: State, c: nat, phase: RootPhase) {
    c in s.contenders && s.contenders[c] == Root(phase)
  }

  predicate IsNested(s: State, c: nat) {
    c in s.contenders && s.contenders[c].Nested?
  }

  predicate InBody(s: State, c: nat) {
    IsNested(s, c) || IsRoot(s, c, Working)
  }

  function Lineage(s: State, c: nat): seq<nat> {
    if IsNested(s, c) then s.contenders[c].ancestors else []
  }

  predicate IsChild(s: State, d: nat, parent: nat) {
    var lineage := Lineage(s, d);
    lineage != [] && lineage[|lineage| - 1] == parent
  }

  // A body ends only after the processes started from it have ended.
  predicate Enabled(s: State, step: Step) {
    match step
    case ArriveRoot(c) => c !in s.used
    case ArriveNested(c, parent) => c !in s.used && InBody(s, parent)
    case TryLock(c) => IsRoot(s, c, Waiting)
    case EndCheck(c, _) => IsRoot(s, c, Checking)
    case GiveUp(c) => IsRoot(s, c, Waiting)
    case Leave(c) => InBody(s, c) && forall d | d in s.contenders :: !IsChild(s, d, c)
    case Crash(c) => c in s.contenders
  }

  // Whoever ends or dies gives the lock back if it had it.
  function Without(s: State, c: nat): State {
    s.(contenders := s.contenders - {c}, lock := if s.lock == Some(c) then None else s.lock)
  }

  function Apply(s: State, step: Step): State
    requires Enabled(s, step)
  {
    match step
    case ArriveRoot(c) => s.(contenders := s.contenders[c := Root(Waiting)], used := s.used + {c})
    case ArriveNested(c, parent) =>
      s.(contenders := s.contenders[c := Nested(Lineage(s, parent) + [parent])], used := s.used + {c})
    case TryLock(c) =>
      if s.lock == None then s.(contenders := s.contenders[c := Root(Checking)], lock := Some(c)) else s
    case EndCheck(c, admitted) =>
      if admitted then s.(contenders := s.contenders[c := Root(Working)])
      else s.(contenders := s.contenders[c := Root(Waiting)], lock := None)
    case GiveUp(c) => Without(s, c)
    case Leave(c) => Without(s, c)
    case Crash(c) => Without(s, c).(crashed := s.crashed + {c})
  }

  // ----- Invariants -----

  predicate LockMatches(s: State) {
    && (forall c | c in s.contenders && s.contenders[c].Root? && s.contenders[c].phase != Waiting :: s.lock == Some(c))
    && (s.lock.Some? ==> IsRoot(s, s.lock.value, Checking) || IsRoot(s, s.lock.value, Working))
  }

  predicate IdentitiesFresh(s: State) {
    && (forall c | c in s.contenders :: c in s.used && c !in s.crashed)
    && s.crashed <= s.used
  }

  // A nested contender's parent is in its body, with the lineage it passed on,
  // or has crashed.
  predicate ParentAlive(s: State, d: nat) {
    var lineage := Lineage(s, d);
    IsNested(s, d) ==>
      && lineage != []
      && var parent := lineage[|lineage| - 1];
      parent in s.used &&
      (parent in s.crashed || (InBody(s, parent) && Lineage(s, parent) == lineage[..|lineage| - 1]))
  }

  predicate Inv(s: State) {
    LockMatches(s) && IdentitiesFresh(s) && forall d | d in s.contenders :: ParentAlive(s, d)
  }

  lemma LockMatchesKept(s: State, step: Step)
    requires LockMatches(s) && IdentitiesFresh(s) && Enabled(s, step)
    ensures LockMatches(Apply(s, step)) && IdentitiesFresh(Apply(s, step))
  {
  }

  lemma ParentAliveKept(s: State, step: Step, d: nat)
    requires IdentitiesFresh(s) && Enabled(s, step) && IsNested(s, d) && ParentAlive(s, d)
    requires d in Apply(s, step).contenders
    ensures ParentAlive(Apply(s, step), d)
  {
    var s' := Apply(s, step);
    assert Lineage(s', d) == Lineage(s, d);
    var lineage := Lineage(s, d);
    var parent := lineage[|lineage| - 1];
    assert step.Leave? ==> !IsChild(s, d, step.c);
    assert parent !in s.crashed && parent in s'.contenders ==> Lineage(s', parent) == Lineage(s, parent);
  }

  lemma InvKept(s: State, step: Step)
    requires Inv(s) && Enabled(s, step)
    ensures Inv(Apply(s, step))
  {
    LockMatchesKept(s, step);
    var s' := Apply(s, step);
    forall d | d in s'.contenders ensures ParentAlive(s', d) {
      if IsNested(s, d) {
        ParentAliveKept(s, step, d);
      }
    }
  }

  predicate Next(s: State, step: Step, s': State) {
    Enabled(s, step) && s' == Apply(s, step)
  }

  ghost predicate IsRun(states: seq<State>, steps: seq<Step>) {
    IsSegment(Next, states, steps) && states[0] == INIT
  }

  lemma RunKeepsInv(states: seq<State>, steps: seq<Step>, i: nat)
    requires IsRun(states, steps) && i < |states|
    ensures Inv(states[i])
  {
    forall s, step, s' | Inv(s) && Next(s, step, s') ensures Inv(s') {
      InvKept(s, step);
    }
    SegmentKeeps(Next, Inv, states, steps, i);
  }

  // ----- What the lease guarantees -----

  // No two contenders without the marker are in their bodies together.
  lemma OneRootInside(states: seq<State>, steps: seq<Step>, i: nat, a: nat, b: nat)
    requires IsRun(states, steps) && i < |states|
    requires IsRoot(states[i], a, Working) && IsRoot(states[i], b, Working)
    ensures a == b && states[i].lock == Some(a)
  {
    RunKeepsInv(states, steps, i);
  }

  // The outermost body a contender in its body belongs to.
  function RootOf(s: State, d: nat): nat {
    if Lineage(s, d) == [] then d else Lineage(s, d)[0]
  }

  lemma {:induction false} BodyUnderHolder(s: State, d: nat)
    requires Inv(s) && InBody(s, d)
    requires forall a | a in Lineage(s, d) :: a !in s.crashed
    ensures s.lock == Some(RootOf(s, d)) && IsRoot(s, RootOf(s, d), Working)
    decreases |Lineage(s, d)|
  {
    assert ParentAlive(s, d);
    if IsNested(s, d) {
      var lineage := Lineage(s, d);
      var parent := lineage[|lineage| - 1];
      assert parent in lineage;
      assert forall a | a in lineage[..|lineage| - 1] :: a in lineage;
      BodyUnderHolder(s, parent);
    }
  }

  // Two bodies run at the same time only inside one process tree, that of the
  // current holder, unless a process they were started from has crashed.
  lemma BodiesShareOneTree(states: seq<State>, steps: seq<Step>, i: nat, d: nat, e: nat)
    requires IsRun(states, steps) && i < |states|
    requires InBody(states[i], d) && InBody(states[i], e)
    requires forall a | a in Lineage(states[i], d) + Lineage(states[i], e) :: a !in states[i].crashed
    ensures RootOf(states[i], d) == RootOf(states[i], e) && states[i].lock == Some(RootOf(states[i], d))
  {
    RunKeepsInv(states, steps, i);
    var s := states[i];
    assert forall a | a in Lineage(s, d) :: a in Lineage(s, d) + Lineage(s, e);
    assert forall a | a in Lineage(s, e) :: a in Lineage(s, d) + Lineage(s, e);
    BodyUnderHolder(s, d);
    BodyUnderHolder(s, e);
  }

  // Whoever is waiting, asleep included, does not hold the lock, and the lock is
  // free whenever nobody checks or works.
  lemma WaitersHoldNothing(states: seq<State>, steps: seq<Step>, i: nat)
    requires IsRun(states, steps) && i < |states|
    ensures forall c: nat | IsRoot(states[i], c, Waiting) :: states[i].lock != Some(c)
    ensures (forall c | c in states[i].contenders :: IsRoot(states[i], c, Waiting)) ==> states[i].lock == None
  {
    RunKeepsInv(states, steps, i);
  }

  function Last(states: seq<State>): State
    requires states != []
  {
    states[|states| - 1]
  }

  lemma Extend(states: seq<State>, steps: seq<Step>, step: Step) returns (states': seq<State>, steps': seq<Step>)
    requires IsRun(states, steps) && Enabled(Last(states), step)
    ensures IsRun(states', steps') && Last(states') == Apply(Last(states), step)
  {
    states', steps' := states + [Apply(Last(states), step)], steps + [step];
  }

  // The crash condition is needed: when a holder dies its lock is freed by the
  // operating system, and a process it had started works on beside the next
  // holder.
  lemma OrphanOutlivesHolder() returns (states: seq<State>, steps: seq<Step>)
    ensures IsRun(states, steps)
    ensures var s := Last(states);
            InBody(s, 1) && InBody(s, 2) && RootOf(s, 1) == 0 && s.lock == Some(2)
  {
    states, steps := [INIT], [];
    states, steps := Extend(states, steps, ArriveRoot(0));
    states, steps := Extend(states, steps, TryLock(0));
    states, steps := Extend(states, steps, EndCheck(0, true));
    states, steps := Extend(states, steps, ArriveNested(1, 0));
    states, steps := Extend(states, steps, Crash(0));
    states, steps := Extend(states, steps, ArriveRoot(2));
    states, steps := Extend(states, steps, TryLock(2));
    states, steps := Extend(states, steps, EndCheck(2, true));
  }
}
