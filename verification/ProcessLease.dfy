/** The host-global lease of scripts/lean_process_lease.py: the wait for the lock
    and the memory reserves, and the protocol between processes that hold it,
    wait for it, or were started under it. */
module ProcessLease {
  import opened Options

  // ----- Reserves -----

  // Sizes in bytes, as the operating system reports them.
  datatype CommitStatus = CommitStatus(total: nat, available: nat, totalPhysical: nat, availablePhysical: nat)

  const GIB: nat := 1024 * 1024 * 1024

  function InGib(bytes: nat): real {
    bytes as real / GIB as real
  }

  function Clamp(least: real, x: real, most: real): real {
    var atLeast := if x < least then least else x;
    if atLeast < most then atLeast else most
  }

  function RequiredCommit(override: Option<real>, total: nat): real {
    if override.Some? then override.value else Clamp(4.0, InGib(total) * 0.30, 32.0)
  }

  function RequiredPhysical(override: Option<real>, total: nat): real {
    if override.Some? then override.value else Clamp(2.0, InGib(total) * 0.25, 12.0)
  }

  function ToBytes(gib: real): int {
    (gib * GIB as real).Floor
  }

  // The adaptive defaults demand no more than the machine owns exactly on
  // machines of at least 4 GiB of commit and 2 GiB of physical memory.
  lemma DefaultsFitTheMachine(status: CommitStatus)
    ensures RequiredCommit(None, status.total) <= InGib(status.total) <==> status.total >= 4 * GIB
    ensures RequiredPhysical(None, status.totalPhysical) <= InGib(status.totalPhysical) <==> status.totalPhysical >= 2 * GIB
  {
    ScaledOrder(status.total, 4);
    ScaledOrder(status.totalPhysical, 2);
  }

  lemma ScaledOrder(bytes: nat, gib: nat)
    ensures InGib(bytes) >= gib as real <==> bytes >= gib * GIB
    ensures InGib(bytes) >= 0.0
  {
    assert InGib(bytes) * GIB as real == bytes as real;
  }

  // ----- Settings -----

  datatype Setting = Unset | NotNumeric | Number(value: real)

  datatype Settings = Settings(commitReserve: Setting, physicalReserve: Setting, timeout: Setting)

  const DEFAULT_TIMEOUT := 1800.0

  predicate Accepted(setting: Setting, minimum: real) {
    setting.Unset? || (setting.Number? && setting.value >= minimum)
  }

  predicate SettingsAccepted(settings: Settings) {
    Accepted(settings.commitReserve, 0.0) && Accepted(settings.physicalReserve, 0.0) && Accepted(settings.timeout, 1.0)
  }

  function Override(setting: Setting): Option<real> {
    if setting.Number? then Some(setting.value) else None
  }

  function TimeoutOf(settings: Settings): real {
    if settings.timeout.Number? then settings.timeout.value else DEFAULT_TIMEOUT
  }

  // ----- Waiting -----

  // What one attempt meets: whether the lock could be taken, what the memory
  // status then was (None where the platform has none), and the monotonic time
  // at which the deadline is looked at.
  datatype Attempt = Attempt(lockFree: bool, status: Option<CommitStatus>, now: real)

  predicate ReservesMet(settings: Settings, status: CommitStatus) {
    && status.available >= ToBytes(RequiredCommit(Override(settings.commitReserve), status.total))
    && status.availablePhysical >= ToBytes(RequiredPhysical(Override(settings.physicalReserve), status.totalPhysical))
  }

  predicate Admits(settings: Settings, attempt: Attempt) {
    attempt.lockFree && (attempt.status.None? || ReservesMet(settings, attempt.status.value))
  }

  // A reserve in GiB: the setting if there is one, else a share of what the machine
  // owns, but no less than `least` and no more than `most`.
  predicate IsReserve(setting: Setting, share: real, least: real, most: real, total: nat, gib: real) {
    if setting.Number? then gib == setting.value
    else
      && (share * InGib(total) <= least ==> gib == least)
      && (share * InGib(total) >= most ==> gib == most)
      && (least <= share * InGib(total) <= most ==> gib == share * InGib(total))
  }

  lemma ReservesMean(settings: Settings, status: CommitStatus)
    ensures IsReserve(settings.commitReserve, 0.3, 4.0, 32.0, status.total, RequiredCommit(Override(settings.commitReserve), status.total))
    ensures IsReserve(settings.physicalReserve, 0.25, 2.0, 12.0, status.totalPhysical, RequiredPhysical(Override(settings.physicalReserve), status.totalPhysical))
  {
  }

  // An attempt admits exactly when the lock is free and, where there is a status,
  // both reserves, cut to whole bytes, are available.
  lemma AdmitsMeans(settings: Settings, attempt: Attempt, commit: real, physical: real)
    requires attempt.status.Some? ==>
               && IsReserve(settings.commitReserve, 0.3, 4.0, 32.0, attempt.status.value.total, commit)
               && IsReserve(settings.physicalReserve, 0.25, 2.0, 12.0, attempt.status.value.totalPhysical, physical)
    ensures Admits(settings, attempt) <==>
              && attempt.lockFree
              && (attempt.status.Some? ==>
                    && attempt.status.value.available as real > commit * 1073741824.0 - 1.0
                    && attempt.status.value.availablePhysical as real > physical * 1073741824.0 - 1.0)
  {
  }

  // Settings are accepted exactly when each one set is a number and not below its
  // least value; a timeout not set is 1800 seconds.
  lemma SettingsMean(settings: Settings)
    ensures SettingsAccepted(settings) <==>
              && settings.commitReserve != NotNumeric && settings.physicalReserve != NotNumeric && settings.timeout != NotNumeric
              && (settings.commitReserve.Number? ==> !(settings.commitReserve.value < 0.0))
              && (settings.physicalReserve.Number? ==> !(settings.physicalReserve.value < 0.0))
              && (settings.timeout.Number? ==> !(settings.timeout.value < 1.0))
    ensures !settings.timeout.Number? ==> TimeoutOf(settings) == 1800.0
    ensures settings.timeout.Number? ==> TimeoutOf(settings) == settings.timeout.value
  {
  }

  datatype Outcome = BadSettings | Nested | Entered(attempt: nat) | TimedOut(attempt: nat)

  datatype Op = TakeLock | FindLockTaken | Body | Unlock | Sleep

  predicate Held(log: seq<Op>) {
    if log == [] then false
    else
      var last := log[|log| - 1];
      last == TakeLock || (last != Unlock && Held(log[..|log| - 1]))
  }

  // The body runs under the lock; nobody sleeps with it.
  predicate WellLocked(log: seq<Op>) {
    forall i | 0 <= i < |log| ::
      && (log[i] == Body ==> Held(log[..i]))
      && (log[i] == Sleep || log[i] == TakeLock ==> !Held(log[..i]))
  }

  lemma LogExtends(log: seq<Op>, op: Op)
    requires WellLocked(log)
    requires op == Body ==> Held(log)
    requires op == Sleep || op == TakeLock ==> !Held(log)
    ensures WellLocked(log + [op])
    ensures Held(log + [op]) == (op == TakeLock || (op != Unlock && Held(log)))
  {
    var longer := log + [op];
    assert longer[..|log|] == log;
    forall i | 0 <= i < |longer|
      ensures longer[i] == Body ==> Held(longer[..i])
      ensures longer[i] == Sleep || longer[i] == TakeLock ==> !Held(longer[..i])
    {
      if i < |log| {
        assert longer[..i] == log[..i];
      }
    }
  }

  function Ceil(x: real): int {
    -((-x).Floor)
  }

  // Every sleep lasts at least a second.
  ghost predicate IsClock(start: real, world: nat -> Attempt) {
    && start <= world(0).now
    && forall i: nat :: world(i).now + 1.0 <= world(i + 1).now
  }

  lemma {:induction false} TimePasses(start: real, world: nat -> Attempt, k: nat)
    requires IsClock(start, world)
    ensures world(k).now >= start + k as real
  {
    if k > 0 {
      TimePasses(start, world, k - 1);
      assert world(k - 1).now + 1.0 <= world(k - 1 + 1).now;
    }
  }

  predicate TurnedAway(settings: Settings, attempt: Attempt, deadline: real) {
    !Admits(settings, attempt) && attempt.now < deadline
  }

  // Enters at the first attempt that finds the lock free and the reserves met,
  // unless the deadline was seen to have passed at an earlier one; no more than
  // ceil(timeout) + 1 attempts are made, no sleep happens under the lock, and on
  // return the lock is free again.
  method WithLease(marked: bool, settings: Settings, start: real, world: nat -> Attempt)
    returns (outcome: Outcome, log: seq<Op>)
    requires IsClock(start, world)
    ensures WellLocked(log) && !Held(log)
    ensures outcome == Nested <==> marked
    ensures outcome == BadSettings <==> !marked && !SettingsAccepted(settings)
    ensures Body in log <==> outcome.Entered?
    ensures outcome.Entered? || outcome.TimedOut? ==>
              var deadline := start + TimeoutOf(settings);
              && outcome.attempt + 1 <= Ceil(TimeoutOf(settings)) + 1
              && (forall i | 0 <= i < outcome.attempt :: TurnedAway(settings, world(i), deadline))
              && (outcome.Entered? ==> Admits(settings, world(outcome.attempt)))
              && (outcome.TimedOut? ==> !Admits(settings, world(outcome.attempt)) && world(outcome.attempt).now >= deadline)
  {
    log := [];
    if marked {
      return Nested, log;
    }
    if !SettingsAccepted(settings) {
      return BadSettings, log;
    }
    var timeout := TimeoutOf(settings);
    var deadline := start + timeout;
    var k := 0;
    while true
      invariant 0 <= k <= Ceil(timeout)
      invariant WellLocked(log) && !Held(log) && Body !in log
      invariant forall i | 0 <= i < k :: TurnedAway(settings, world(i), deadline)
      decreases Ceil(timeout) - k
    {
      var attempt := world(k);
      if attempt.lockFree {
        LogExtends(log, TakeLock);
        log := log + [TakeLock];
        if attempt.status.None? || ReservesMet(settings, attempt.status.value) {
          LogExtends(log, Body);
          LogExtends(log + [Body], Unlock);
          log := log + [Body] + [Unlock];
          return Entered(k), log;
        }
        LogExtends(log, Unlock);
        log := log + [Unlock];
      } else {
        LogExtends(log, FindLockTaken);
        log := log + [FindLockTaken];
      }
      if attempt.now >= deadline {
        return TimedOut(k), log;
      }
      TimePasses(start, world, k);
      LogExtends(log, Sleep);
      log := log + [Sleep];
      k := k + 1;
    }
  }
}
