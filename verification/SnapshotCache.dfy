/** Launchers of scripts/run_incremental_lean.py that share one source: threads
    and processes under cache_lock, each deciding between loading and saving a
    snapshot, publishing and pruning; crashes anywhere, inputs that change at any
    time, and damage to files from outside. */
module SnapshotCache {
  import opened Options
  import opened Runs
  import opened CacheLock
  import opened SnapshotFiles
  import Lock = CacheLock

  // What a launcher inside the lock has done so far.
  datatype Work =
    | Locked
    | Fingerprinted(fp: Fingerprint)
    | Loading(fp: Fingerprint, pair: Pair)
    | Saving(fp: Fingerprint)
    | Saved(fp: Fingerprint, pair: Pair)       // Lean left two non-empty temporaries
    | Confirmed(fp: Fingerprint, pair: Pair)   // the fingerprint came out the same again
    | DepsReplaced(fp: Fingerprint, pair: Pair)
    | SnapshotReplaced(fp: Fingerprint, pair: Pair)
    | Committed(fp: Fingerprint, pair: Pair)
    | Pruning(fp: Fingerprint, pair: Pair, todo: seq<Fingerprint>, part: nat)
    | Leaving

  // One Lean run that left two files, with the fingerprints computed before and after.
  datatype Save = Save(before: Fingerprint, pair: Pair, after: Fingerprint)

  datatype State = State(lock: Lock.State, work: map<Actor, Work>, files: Store, saves: seq<Save>)

  datatype Step =
    | LockStep(step: Lock.Step)
    | ComputeFingerprint(a: Actor, fp: Fingerprint)
    | Choose(a: Actor, refresh: bool)
    | LeanLoaded(a: Actor)
    | LeanSaved(a: Actor, snapshot: Option<Blob>, deps: Option<Blob>)
    | Recheck(a: Actor, after: Fingerprint)
    | ReplaceDeps(a: Actor)
    | ReplaceSnapshot(a: Actor)
    | WriteManifest(a: Actor)
    | ListObsolete(a: Actor, todo: seq<Fingerprint>)
    | Unlink(a: Actor, succeeds: bool)
    | EndPruning(a: Actor)
    | Abort(a: Actor)                          // an exception, or nothing to run
    | Damage(fp: Fingerprint, entry: Entry)    // from outside every launcher

  predicate Obsolete(files: Store, keep: Fingerprint, fp: Fingerprint) {
    fp != keep && At(files, fp).snapshot.Some?
  }

  // Damage may do anything to the two data files but cannot forge a manifest.
  predicate Damaged(was: Entry, now: Entry) {
    now.manifest == was.manifest || now.manifest == None || now.manifest == Some(Garbled)
  }

  predicate Enabled(s: State, step: Step) {
    match step
    case LockStep(ls) => Lock.Enabled(s.lock, ls) && (ls.EndBody? ==> ls.a in s.work && s.work[ls.a] == Leaving)
    case ComputeFingerprint(a, _) => a in s.work && s.work[a].Locked?
    case Choose(a, _) => a in s.work && s.work[a].Fingerprinted?
    case LeanLoaded(a) => a in s.work && s.work[a].Loading?
    case LeanSaved(a, _, _) => a in s.work && s.work[a].Saving?
    case Recheck(a, _) => a in s.work && s.work[a].Saved?
    case ReplaceDeps(a) => a in s.work && s.work[a].Confirmed?
    case ReplaceSnapshot(a) => a in s.work && s.work[a].DepsReplaced?
    case WriteManifest(a) => a in s.work && s.work[a].SnapshotReplaced?
    case ListObsolete(a, todo) =>
      a in s.work && s.work[a].Committed?
      && (forall fp | fp in todo :: Obsolete(s.files, s.work[a].fp, fp))
      && (forall fp | fp in s.files && Obsolete(s.files, s.work[a].fp, fp) :: fp in todo)
      && (forall i, j | 0 <= i < j < |todo| :: todo[i] != todo[j])
    case Unlink(a, _) => a in s.work && s.work[a].Pruning? && s.work[a].todo != []
    case EndPruning(a) => a in s.work && s.work[a].Pruning? && s.work[a].todo == []
    case Abort(a) => a in s.work
    case Damage(fp, entry) => Damaged(At(s.files, fp), entry)
  }

  // Validation and the choice between loading and saving.
  function Chosen(files: Store, fp: Fingerprint, refresh: bool): Work {
    var e := At(files, fp);
    if refresh then Saving(fp)
    else match Validate(e)
      case Valid => Loading(fp, Pair(e.snapshot.value, e.deps.value))
      case Absent => Saving(fp)
      case _ => Leaving
  }

  function AfterSave(fp: Fingerprint, snapshot: Option<Blob>, deps: Option<Blob>): Work {
    if snapshot.Some? && deps.Some? && snapshot.value != [] && deps.value != []
    then Saved(fp, Pair(snapshot.value, deps.value)) else Leaving
  }

  function AfterUnlink(w: Work, succeeds: bool): Work
    requires w.Pruning? && w.todo != []
  {
    if succeeds && w.part < 2 then w.(part := w.part + 1) else w.(todo := w.todo[1..], part := 0)
  }

  function FilesAfterUnlink(files: Store, w: Work, succeeds: bool): Store
    requires w.Pruning? && w.todo != []
  {
    if succeeds then files[w.todo[0] := Unlinked(At(files, w.todo[0]), w.part)] else files
  }

  // How the lock's own steps enter and end the work done inside it.
  function AfterLockStep(lock: Lock.State, work: map<Actor, Work>, ls: Lock.Step): map<Actor, Work> {
    match ls
    case TryFileLock(a) => if Granted(lock, a) then work[a := Locked] else work
    case EndBody(a) => work - {a}
    case Crash(p) => map a | a in work && a.process != p :: work[a]
    case _ => work
  }

  function Replace(s: State, a: Actor, entry: Entry, next: Work): State
    requires a in s.work && !s.work[a].Locked? && !s.work[a].Leaving?
  {
    s.(files := s.files[s.work[a].fp := entry], work := s.work[a := next])
  }

  function Apply(s: State, step: Step): State
    requires Enabled(s, step)
  {
    match step
    case LockStep(ls) => s.(lock := Lock.Apply(s.lock, ls), work := AfterLockStep(s.lock, s.work, ls))
    case ComputeFingerprint(a, fp) => s.(work := s.work[a := Fingerprinted(fp)])
    case Choose(a, refresh) => s.(work := s.work[a := Chosen(s.files, s.work[a].fp, refresh)])
    case LeanLoaded(a) => s.(work := s.work[a := Leaving])
    case LeanSaved(a, snapshot, deps) => s.(work := s.work[a := AfterSave(s.work[a].fp, snapshot, deps)])
    case Recheck(a, after) =>
      var w := s.work[a];
      s.(work := s.work[a := if after == w.fp then Confirmed(w.fp, w.pair) else Leaving],
         saves := s.saves + [Save(w.fp, w.pair, after)])
    case ReplaceDeps(a) =>
      var w := s.work[a];
      Replace(s, a, PutDeps(At(s.files, w.fp), w.pair), DepsReplaced(w.fp, w.pair))
    case ReplaceSnapshot(a) =>
      var w := s.work[a];
      Replace(s, a, PutSnapshot(At(s.files, w.fp), w.pair), SnapshotReplaced(w.fp, w.pair))
    case WriteManifest(a) =>
      var w := s.work[a];
      Replace(s, a, PutManifest(At(s.files, w.fp), w.pair), Committed(w.fp, w.pair))
    case ListObsolete(a, todo) => s.(work := s.work[a := Pruning(s.work[a].fp, s.work[a].pair, todo, 0)])
    case Unlink(a, succeeds) =>
      var w := s.work[a];
      s.(files := FilesAfterUnlink(s.files, w, succeeds),
         work := s.work[a := AfterUnlink(w, succeeds)])
    case EndPruning(a) => s.(work := s.work[a := Leaving])
    case Abort(a) => s.(work := s.work[a := Leaving])
    case Damage(fp, entry) => s.(files := s.files[fp := entry])
  }

  // ----- Invariants of every reachable state, damage included -----

  predicate WorkersInside(s: State) {
    && (forall a | a in s.work :: IsIn(s.lock, a, Inside))
    && (forall a | a in s.lock.phase && IsIn(s.lock, a, Inside) :: a in s.work)
  }

  // `pair` came out of one Lean run whose inputs had fingerprint fp before and after.
  predicate SavedUnder(saves: seq<Save>, fp: Fingerprint, pair: Pair) {
    Save(fp, pair, fp) in saves
  }

  ghost predicate GenuineManifest(saves: seq<Save>, fp: Fingerprint, e: Entry) {
    e.manifest.Some? && e.manifest.value.Readable? ==>
      exists pair :: SavedUnder(saves, fp, pair) && e.manifest.value.manifest == PairManifest(pair)
  }

  ghost predicate ManifestsGenuine(s: State) {
    forall fp | fp in s.files :: GenuineManifest(s.saves, fp, s.files[fp])
  }

  predicate CarriesPair(w: Work) {
    w.Loading? || w.Confirmed? || w.DepsReplaced? || w.SnapshotReplaced? || w.Committed? || w.Pruning?
  }

  predicate WorkRecorded(s: State) {
    forall a | a in s.work && CarriesPair(s.work[a]) :: SavedUnder(s.saves, s.work[a].fp, s.work[a].pair)
  }

  // A prune never lists the entry it keeps, and lists no entry twice.
  predicate Spares(w: Work) {
    w.Pruning? ==> w.fp !in w.todo && w.part <= 2 && forall i, j | 0 <= i < j < |w.todo| :: w.todo[i] != w.todo[j]
  }

  predicate PruningSpares(s: State) {
    forall a | a in s.work :: Spares(s.work[a])
  }

  ghost predicate Inv(s: State) {
    Lock.Inv(s.lock) && WorkersInside(s) && ManifestsGenuine(s) && WorkRecorded(s) && PruningSpares(s)
  }

  lemma OneWorker(s: State, a: Actor, b: Actor)
    requires Lock.Inv(s.lock) && WorkersInside(s) && a in s.work && b in s.work
    ensures a == b
  {
    assert IsIn(s.lock, a, Inside) && IsIn(s.lock, b, Inside);
    assert OwnsThreadLock(s.lock, a) && OwnsThreadLock(s.lock, b);
  }

  lemma WorkersInsideKept(s: State, step: Step)
    requires Lock.Inv(s.lock) && WorkersInside(s) && Enabled(s, step)
    ensures Lock.Inv(Apply(s, step).lock) && WorkersInside(Apply(s, step))
  {
    if step.LockStep? {
      Lock.InvKept(s.lock, step.step);
    }
  }

  // A validated pair is the pair of one recorded save.
  lemma ValidIsSaved(saves: seq<Save>, fp: Fingerprint, e: Entry)
    requires GenuineManifest(saves, fp, e) && Validate(e) == Valid
    ensures SavedUnder(saves, fp, Pair(e.snapshot.value, e.deps.value))
  {
    var pair :| SavedUnder(saves, fp, pair) && e.manifest.value.manifest == PairManifest(pair);
    assert pair == Pair(e.snapshot.value, e.deps.value);
  }

  lemma SavesGrow(s: State, step: Step, fp: Fingerprint, e: Entry)
    requires Enabled(s, step)
    ensures GenuineManifest(s.saves, fp, e) ==> GenuineManifest(Apply(s, step).saves, fp, e)
  {
    if GenuineManifest(s.saves, fp, e) && e.manifest.Some? && e.manifest.value.Readable? {
      var pair :| SavedUnder(s.saves, fp, pair) && e.manifest.value.manifest == PairManifest(pair);
      assert SavedUnder(Apply(s, step).saves, fp, pair);
    }
  }

  // Every step leaves each manifest as it was, removes it, garbles it, or
  // replaces it by the manifest of the launcher's recorded pair.
  lemma ManifestsGenuineKept(s: State, step: Step)
    requires ManifestsGenuine(s) && WorkRecorded(s) && Enabled(s, step)
    ensures ManifestsGenuine(Apply(s, step))
  {
    var s' := Apply(s, step);
    forall fp | fp in s'.files ensures GenuineManifest(s'.saves, fp, s'.files[fp]) {
      SavesGrow(s, step, fp, At(s.files, fp));
      if step.WriteManifest? && fp == s.work[step.a].fp {
        assert SavedUnder(s'.saves, fp, s.work[step.a].pair);
      } else {
        assert s'.files[fp].manifest == At(s.files, fp).manifest || s'.files[fp].manifest == None
          || s'.files[fp].manifest == Some(Garbled);
      }
    }
  }

  lemma WorkRecordedKept(s: State, step: Step)
    requires ManifestsGenuine(s) && WorkRecorded(s) && Enabled(s, step)
    ensures WorkRecorded(Apply(s, step))
  {
    var s' := Apply(s, step);
    if step.Choose? {
      var fp := s.work[step.a].fp;
      if Validate(At(s.files, fp)) == Valid {
        ValidIsSaved(s.saves, fp, At(s.files, fp));
      }
    }
    forall a | a in s'.work && CarriesPair(s'.work[a]) ensures SavedUnder(s'.saves, s'.work[a].fp, s'.work[a].pair) {
      assert a in s.work && CarriesPair(s.work[a]) ==> SavedUnder(s.saves, s.work[a].fp, s.work[a].pair);
    }
  }

  lemma PruningSparesKept(s: State, step: Step)
    requires PruningSpares(s) && Enabled(s, step)
    ensures PruningSpares(Apply(s, step))
  {
    var s' := Apply(s, step);
    assert forall a | a in s.work :: Spares(s.work[a]);
    if step.Unlink? {
      var w := s.work[step.a];
      assert forall i | 0 <= i < |w.todo| - 1 :: w.todo[1..][i] == w.todo[i + 1];
    }
    assert forall a | a in s'.work && a in s.work && s'.work[a] == s.work[a] :: Spares(s'.work[a]);
  }

  lemma InvKept(s: State, step: Step)
    requires Inv(s) && Enabled(s, step)
    ensures Inv(Apply(s, step))
  {
    WorkersInsideKept(s, step);
    ManifestsGenuineKept(s, step);
    WorkRecordedKept(s, step);
    PruningSparesKept(s, step);
  }

  // ----- Runs -----

  ghost predicate IsInitial(s: State) {
    s.lock == Lock.INIT && s.work == map[] && s.files == map[] && s.saves == []
  }

  predicate Next(s: State, step: Step, s': State) {
    Enabled(s, step) && s' == Apply(s, step)
  }

  // A step of some launcher, not damage from outside.
  predicate QuietNext(s: State, step: Step, s': State) {
    Next(s, step, s') && !step.Damage?
  }

  ghost predicate IsRun(states: seq<State>, steps: seq<Step>) {
    IsSegment(Next, states, steps) && IsInitial(states[0])
  }

  ghost predicate IsQuietRun(states: seq<State>, steps: seq<Step>) {
    IsSegment(QuietNext, states, steps) && IsInitial(states[0])
  }

  lemma RunKeepsInv(states: seq<State>, steps: seq<Step>, i: nat)
    requires IsRun(states, steps) && i < |states|
    ensures Inv(states[i])
  {
    forall s, step, s' | Inv(s) && Next(s, step, s') ensures Inv(s') {
      InvKept(s, step);
    }
    SegmentKeeps(Next, Inv, states, steps, i);
  }

  // At any moment of any run, with crashes, changing inputs and damaged files, a
  // pair that validates for a fingerprint is the output of one single Lean run
  // that began and ended with that fingerprint.
  lemma ValidPairIsOneSave(states: seq<State>, steps: seq<Step>, i: nat, fp: Fingerprint)
    requires IsRun(states, steps) && i < |states|
    requires Validate(At(states[i].files, fp)) == Valid
    ensures exists pair :: SavedUnder(states[i].saves, fp, pair) && At(states[i].files, fp) == Published(pair)
  {
    RunKeepsInv(states, steps, i);
    var e := At(states[i].files, fp);
    ValidIsSaved(states[i].saves, fp, e);
    assert e == Published(Pair(e.snapshot.value, e.deps.value));
  }

  // Two files that no single save produced together are refused: never accepted,
  // and never taken for absent.
  lemma MixedPairRefused(states: seq<State>, steps: seq<Step>, i: nat, fp: Fingerprint, pair: Pair)
    requires IsRun(states, steps) && i < |states|
    requires Holds(At(states[i].files, fp), pair) && !SavedUnder(states[i].saves, fp, pair)
    ensures Validate(At(states[i].files, fp)) in {Incomplete, Unreadable, Mismatch}
    ensures Chosen(states[i].files, fp, false) == Leaving
  {
    if Validate(At(states[i].files, fp)) == Valid {
      ValidPairIsOneSave(states, steps, i, fp);
    }
  }

  // At most one launcher works at a time, and the one that works holds the lock.
  lemma LaunchersExclude(states: seq<State>, steps: seq<Step>, i: nat, a: Actor, b: Actor)
    requires IsRun(states, steps) && i < |states| && a in states[i].work && b in states[i].work
    ensures a == b && Lock.Inv(states[i].lock) && Holder(states[i].lock) == Some(a)
  {
    RunKeepsInv(states, steps, i);
    OneWorker(states[i], a, b);
    assert IsIn(states[i].lock, a, Inside);
    assert OwnsThreadLock(states[i].lock, a);
  }

  // ----- What launchers find on disk while nothing damages it -----

  predicate WorkMatches(files: Store, w: Work) {
    match w
    case Loading(fp, pair) => At(files, fp) == Published(pair)
    case DepsReplaced(fp, pair) => At(files, fp).deps == Some(pair.deps)
    case SnapshotReplaced(fp, pair) => Holds(At(files, fp), pair)
    case Committed(fp, pair) => At(files, fp) == Published(pair)
    case Pruning(fp, pair, todo, part) =>
      && At(files, fp) == Published(pair)
      && (forall i | (if part == 0 then 0 else 1) <= i < |todo| :: At(files, todo[i]).snapshot.Some?)
    case _ => true
  }

  predicate FilesMatch(s: State) {
    forall a | a in s.work :: WorkMatches(s.files, s.work[a])
  }

  lemma UnlinkMatches(files: Store, w: Work, succeeds: bool)
    requires w.Pruning? && w.todo != [] && Spares(w) && WorkMatches(files, w)
    ensures WorkMatches(FilesAfterUnlink(files, w, succeeds), AfterUnlink(w, succeeds))
  {
    var files' := FilesAfterUnlink(files, w, succeeds);
    assert forall i | 0 <= i < |w.todo| - 1 :: w.todo[1..][i] == w.todo[i + 1];
    assert w.fp != w.todo[0];
    assert At(files', w.fp) == At(files, w.fp);
    assert forall i | 1 <= i < |w.todo| :: At(files', w.todo[i]) == At(files, w.todo[i]);
  }

  lemma OwnWorkMatches(s: State, step: Step)
    requires PruningSpares(s) && FilesMatch(s) && Enabled(s, step) && !step.Damage? && !step.LockStep?
    ensures WorkMatches(Apply(s, step).files, Apply(s, step).work[step.a])
  {
    var w := s.work[step.a];
    assert WorkMatches(s.files, w) && Spares(w);
    if step.Unlink? {
      UnlinkMatches(s.files, w, step.succeeds);
    } else if step.ListObsolete? {
      assert forall i | 0 <= i < |step.todo| :: step.todo[i] in step.todo;
    }
  }

  lemma FilesMatchKept(s: State, step: Step)
    requires Inv(s) && FilesMatch(s) && Enabled(s, step) && !step.Damage?
    ensures FilesMatch(Apply(s, step))
  {
    var s' := Apply(s, step);
    if step.LockStep? {
      assert forall b | b in s'.work :: (b in s.work && s'.work[b] == s.work[b]) || s'.work[b] == Locked;
    } else {
      OwnWorkMatches(s, step);
      forall b | b in s'.work ensures b == step.a {
        assert b in s.work;
        OneWorker(s, step.a, b);
      }
    }
  }

  ghost predicate QuietInv(s: State) {
    Inv(s) && FilesMatch(s)
  }

  lemma QuietKeepsInv(states: seq<State>, steps: seq<Step>, i: nat)
    requires IsSegment(QuietNext, states, steps) && QuietInv(states[0]) && i < |states|
    ensures QuietInv(states[i])
  {
    forall s, step, s' | QuietInv(s) && QuietNext(s, step, s') ensures QuietInv(s') {
      InvKept(s, step);
      FilesMatchKept(s, step);
    }
    SegmentKeeps(QuietNext, QuietInv, states, steps, i);
  }

  // While a launcher loads, no step of anyone but the damage from outside
  // changes any file, whatever refreshes or prunes the others are after; and
  // the launcher stays in its load until Lean exits, it fails, or it dies.
  lemma LoadingFreezesFiles(s: State, step: Step, a: Actor)
    requires Inv(s) && a in s.work && s.work[a].Loading? && Enabled(s, step) && !step.Damage?
    ensures Apply(s, step).files == s.files
    ensures var s' := Apply(s, step);
            || (a in s'.work && s'.work[a] == s.work[a])
            || step == LeanLoaded(a) || step == Abort(a) || step == LockStep(Crash(a.process))
  {
    if step.LockStep? {
      if step.step.TryFileLock? {
        assert Lock.Inv(s.lock);
        assert IsIn(s.lock, a, Inside);
      }
    } else {
      OneWorker(s, a, step.a);
    }
  }

  // In every run without outside damage, a loading launcher has on disk, until
  // Lean exits, the pair it validated; that pair is the output of one save whose
  // inputs had, before and after, the fingerprint the launcher computed.
  lemma LoaderKeepsItsPair(states: seq<State>, steps: seq<Step>, i: nat, a: Actor)
    requires IsQuietRun(states, steps) && i < |states|
    requires a in states[i].work && states[i].work[a].Loading?
    ensures var w := states[i].work[a];
            At(states[i].files, w.fp) == Published(w.pair) && SavedUnder(states[i].saves, w.fp, w.pair)
  {
    QuietKeepsInv(states, steps, i);
    assert WorkMatches(states[i].files, states[i].work[a]);
  }

  predicate Publishes(s: State, step: Step, fp: Fingerprint) {
    (step.ReplaceDeps? || step.ReplaceSnapshot? || step.WriteManifest?)
    && step.a in s.work && !s.work[step.a].Locked? && !s.work[step.a].Leaving? && s.work[step.a].fp == fp
  }

  predicate Prunes(s: State, step: Step, fp: Fingerprint) {
    && step.Unlink? && step.a in s.work && s.work[step.a].Pruning?
    && s.work[step.a].todo != [] && s.work[step.a].todo[0] == fp
  }

  lemma EntryUntouched(s: State, step: Step, fp: Fingerprint)
    requires Enabled(s, step) && !step.Damage? && !Publishes(s, step, fp) && !Prunes(s, step, fp)
    ensures At(Apply(s, step).files, fp) == At(s.files, fp)
  {
  }

  predicate HoldsPair(s: State, fp: Fingerprint, pair: Pair) {
    At(s.files, fp) == Published(pair)
  }

  // Between two moments nobody publishes or prunes under the fingerprint.
  predicate SparedBetween(states: seq<State>, steps: seq<Step>, fp: Fingerprint, i: nat, j: nat) {
    && i <= j < |states| && j <= |steps|
    && forall k | i <= k < j :: !Publishes(states[k], steps[k], fp) && !Prunes(states[k], steps[k], fp)
  }

  lemma {:induction false} EntryStays(states: seq<State>, steps: seq<Step>, fp: Fingerprint, i: nat, j: nat)
    requires IsSegment(QuietNext, states, steps) && SparedBetween(states, steps, fp, i, j)
    ensures At(states[j].files, fp) == At(states[i].files, fp)
    decreases j
  {
    if i < j {
      EntryStays(states, steps, fp, i, j - 1);
      assert QuietNext(states[j - 1], steps[j - 1], states[j - 1 + 1]);
      EntryUntouched(states[j - 1], steps[j - 1], fp);
    }
  }

  // From any files at all, damaged ones included: once a launcher has confirmed
  // its save, if nothing damages the files from then on, its own pair is there
  // and validates when it has committed, all through its own prune, and from any
  // such moment on until a publication or a prune under that fingerprint.
  lemma CommitHeals(states: seq<State>, steps: seq<Step>, i: nat, a: Actor, j: nat)
    requires IsSegment(QuietNext, states, steps) && i < |states|
    requires Inv(states[0]) && a in states[0].work && states[0].work[a].Confirmed?
    requires a in states[i].work && (states[i].work[a].Committed? || states[i].work[a].Pruning?)
    requires SparedBetween(states, steps, states[i].work[a].fp, i, j)
    ensures var w := states[i].work[a];
            && HoldsPair(states[i], w.fp, w.pair) && HoldsPair(states[j], w.fp, w.pair)
            && Validate(At(states[j].files, w.fp)) == Valid
  {
    forall b | b in states[0].work ensures WorkMatches(states[0].files, states[0].work[b]) {
      OneWorker(states[0], a, b);
    }
    QuietKeepsInv(states, steps, i);
    assert WorkMatches(states[i].files, states[i].work[a]);
    EntryStays(states, steps, states[i].work[a].fp, i, j);
  }

  // ----- What a launcher decides -----

  // Without --refresh it loads exactly a complete pair under its own manifest, and
  // that very pair; it saves exactly when told to refresh or when there is no file
  // at all; any other files turn it away.
  lemma ChoiceMeans(s: State, a: Actor, refresh: bool)
    requires Enabled(s, Choose(a, refresh))
    ensures var fp := s.work[a].fp;
            var e, w := At(s.files, fp), Apply(s, Choose(a, refresh)).work[a];
            && (w.Loading? <==> !refresh && exists pair :: e == Published(pair))
            && (forall pair :: w == Loading(fp, pair) <==> !refresh && e == Published(pair))
            && (w == Saving(fp) <==> refresh || e == Entry(None, None, None))
            && (!w.Loading? && w != Saving(fp) ==> w == Leaving)
  {
    var e := At(s.files, s.work[a].fp);
    if !refresh && Validate(e) == Valid {
      assert e == Published(Pair(e.snapshot.value, e.deps.value));
    }
  }

  // A save counts exactly when Lean left two non-empty files, and is confirmed
  // exactly when the fingerprint comes out as it was before.
  lemma SaveMeans(s: State, a: Actor, snapshot: Option<Blob>, deps: Option<Blob>, after: Fingerprint)
    requires a in s.work
    ensures Enabled(s, LeanSaved(a, snapshot, deps)) ==>
              var w := Apply(s, LeanSaved(a, snapshot, deps)).work[a];
              && (forall pair: Pair :: w == Saved(s.work[a].fp, pair) <==>
                    snapshot == Some(pair.snapshot) && deps == Some(pair.deps) && |pair.snapshot| > 0 && |pair.deps| > 0)
              && (!w.Saved? ==> w == Leaving)
    ensures Enabled(s, Recheck(a, after)) ==>
              var w, s' := s.work[a], Apply(s, Recheck(a, after));
              && s'.work[a] == (if after == w.fp then Confirmed(w.fp, w.pair) else Leaving)
              && s'.saves == s.saves + [Save(w.fp, w.pair, after)] && s'.files == s.files
  {
  }

  // Whoever computes the fingerprint of a committed pair, before anyone publishes
  // or prunes under it, loads that very pair.
  lemma LoadsWhatWasCommitted(states: seq<State>, steps: seq<Step>, i: nat, a: Actor, j: nat, b: Actor)
    requires IsSegment(QuietNext, states, steps) && i < |states|
    requires Inv(states[0]) && a in states[0].work && states[0].work[a].Confirmed?
    requires a in states[i].work && (states[i].work[a].Committed? || states[i].work[a].Pruning?)
    requires SparedBetween(states, steps, states[i].work[a].fp, i, j)
    requires b in states[j].work && states[j].work[b] == Fingerprinted(states[i].work[a].fp)
    ensures Apply(states[j], Choose(b, false)).work[b] == Loading(states[i].work[a].fp, states[i].work[a].pair)
  {
    CommitHeals(states, steps, i, a, j);
    ChoiceMeans(states[j], b, false);
  }

  // ----- What pruning leaves behind -----

  // A prune cut short, by a crash or by a failing unlink, after it removed the
  // snapshot file.
  predicate Leftover(e: Entry) {
    e.snapshot == None && e != EMPTY
  }

  predicate UnderPrune(s: State, fp: Fingerprint) {
    exists a | a in s.work :: s.work[a].Pruning? && s.work[a].todo != [] && s.work[a].todo[0] == fp && s.work[a].part > 0
  }

  // How such an entry comes about: the unlink after the first one fails, or the
  // launcher stops there.
  lemma CutShortPruneLeaves(s: State, a: Actor, step: Step, fp: Fingerprint)
    requires Inv(s) && a in s.work && s.work[a].Pruning? && s.work[a].todo != [] && s.work[a].todo[0] == fp
    requires s.work[a].part > 0 && Leftover(At(s.files, fp))
    requires step == Unlink(a, false) || step == Abort(a) || step == LockStep(Crash(a.process))
    ensures Enabled(s, step) && Leftover(At(Apply(s, step).files, fp)) && !UnderPrune(Apply(s, step), fp)
  {
    var s' := Apply(s, step);
    forall b | b in s'.work ensures !s'.work[b].Pruning? || s'.work[b].part == 0 {
      assert b in s.work;
      OneWorker(s, a, b);
    }
  }

  lemma LeftoverNotListed(s: State, a: Actor, fp: Fingerprint)
    requires FilesMatch(s) && Leftover(At(s.files, fp)) && !UnderPrune(s, fp)
    requires a in s.work && s.work[a].Pruning? && s.work[a].todo != []
    ensures s.work[a].todo[0] != fp
  {
    assert WorkMatches(s.files, s.work[a]);
  }

  lemma LeftoverKept(s: State, step: Step, fp: Fingerprint)
    requires FilesMatch(s) && Leftover(At(s.files, fp)) && !UnderPrune(s, fp)
    requires Enabled(s, step) && !step.Damage? && !Publishes(s, step, fp)
    ensures At(Apply(s, step).files, fp) == At(s.files, fp) && !UnderPrune(Apply(s, step), fp)
  {
    var s' := Apply(s, step);
    if step.Unlink? {
      LeftoverNotListed(s, step.a, fp);
    }
    forall a | a in s'.work && s'.work[a].Pruning? && s'.work[a].todo != [] && s'.work[a].part > 0
      ensures s'.work[a].todo[0] != fp
    {
      assert a in s.work && s.work[a].Pruning? && s.work[a].todo != [] && s.work[a].todo[0] == s'.work[a].todo[0];
      LeftoverNotListed(s, a, fp);
    }
  }

  // A step that publishes nothing under this fingerprint.
  predicate UnpublishingNext(fp: Fingerprint, s: State, step: Step, s': State) {
    QuietNext(s, step, s') && !Publishes(s, step, fp)
  }

  ghost predicate HoldsLeftover(fp: Fingerprint, entry: Entry, s: State) {
    QuietInv(s) && At(s.files, fp) == entry && !UnderPrune(s, fp)
  }

  // No later prune lists such an entry, so it stays for good: only a new
  // publication under the same fingerprint touches it.  Until then every
  // launcher that computes this fingerprint without --refresh is turned away.
  lemma LeftoverStays(states: seq<State>, steps: seq<Step>, fp: Fingerprint, entry: Entry, i: nat)
    requires IsSegment((s, step, s') => UnpublishingNext(fp, s, step, s'), states, steps) && i < |states|
    requires HoldsLeftover(fp, entry, states[0]) && Leftover(entry)
    ensures At(states[i].files, fp) == entry && Chosen(states[i].files, fp, false) == Leaving
  {
    var next := (s, step, s') => UnpublishingNext(fp, s, step, s');
    var inv := s => HoldsLeftover(fp, entry, s);
    forall s, step, s' | inv(s) && next(s, step, s') ensures inv(s') {
      InvKept(s, step);
      FilesMatchKept(s, step);
      LeftoverKept(s, step, fp);
    }
    SegmentKeeps(next, inv, states, steps, i);
    assert inv(states[i]);
  }

  // ----- When a later prune empties an obsolete entry -----

  // Quiet steps during which launcher `a` is at or in its prune and no unlink fails.
  predicate PruningNext(a: Actor, s: State, step: Step, s': State) {
    && QuietNext(s, step, s')
    && (step.Unlink? ==> step.succeeds)
    && a in s'.work && (s'.work[a].Committed? || s'.work[a].Pruning?)
  }

  // How far work `w` has got with an entry that was `entry` when its prune began.
  predicate PruneReached(files: Store, w: Work, keep: Fingerprint, fp: Fingerprint, entry: Entry) {
    match w
    case Committed(f, _) => f == keep && At(files, fp) == entry
    case Pruning(f, _, todo, part) =>
      && f == keep && part <= 2
      && (fp in todo ==> entry.snapshot.Some?)
      && At(files, fp) ==
           (if fp !in todo then (if entry.snapshot.Some? then EMPTY else entry)
            else if todo[0] == fp then PrunedEntry(entry, part)
            else entry)
    case _ => false
  }

  lemma FirstOnce(todo: seq<Fingerprint>)
    requires todo != [] && forall i, j | 0 <= i < j < |todo| :: todo[i] != todo[j]
    ensures todo[0] !in todo[1..] && forall fp | fp != todo[0] :: fp in todo <==> fp in todo[1..]
  {
    assert todo == [todo[0]] + todo[1..];
  }

  lemma UnlinkReached(files: Store, w: Work, keep: Fingerprint, fp: Fingerprint, entry: Entry)
    requires w.Pruning? && w.todo != [] && Spares(w) && PruneReached(files, w, keep, fp, entry)
    ensures PruneReached(FilesAfterUnlink(files, w, true), AfterUnlink(w, true), keep, fp, entry)
  {
    FirstOnce(w.todo);
    if w.todo[0] == fp && w.part == 2 {
      assert PrunedEntry(entry, 1) == entry.(snapshot := None);
      assert PrunedEntry(entry, 2) == entry.(snapshot := None, deps := None);
    }
  }

  ghost predicate PruneInv(a: Actor, keep: Fingerprint, fp: Fingerprint, entry: Entry, s: State) {
    QuietInv(s) && a in s.work && PruneReached(s.files, s.work[a], keep, fp, entry)
  }

  lemma PruneReachedKept(a: Actor, keep: Fingerprint, fp: Fingerprint, entry: Entry, s: State, step: Step, s': State)
    requires PruneInv(a, keep, fp, entry, s) && fp != keep && PruningNext(a, s, step, s')
    ensures a in s'.work && PruneReached(s'.files, s'.work[a], keep, fp, entry)
  {
    if step.LockStep? {
      assert s'.work[a] == s.work[a];
    } else {
      OneWorker(s, a, step.a);
      if step.Unlink? {
        UnlinkReached(s.files, s.work[a], keep, fp, entry);
      }
    }
  }

  // An obsolete entry is emptied by the prune of a launcher that keeps another
  // fingerprint and whose unlinks all succeed exactly when its snapshot file is
  // still there: a prune cut short before its first unlink is made good by the
  // next one, and one cut short after it is not.
  lemma PruneEmptiesIff(states: seq<State>, steps: seq<Step>, a: Actor, fp: Fingerprint)
    requires IsSegment((s, step, s') => PruningNext(a, s, step, s'), states, steps) && QuietInv(states[0])
    requires a in states[0].work && states[0].work[a].Committed? && states[0].work[a].fp != fp
    requires At(states[0].files, fp) != EMPTY
    requires var last := states[|states| - 1].work;
             a in last && last[a].Pruning? && last[a].todo == []
    ensures At(states[|states| - 1].files, fp) == EMPTY <==> At(states[0].files, fp).snapshot.Some?
    ensures At(states[0].files, fp).snapshot.None? ==> At(states[|states| - 1].files, fp) == At(states[0].files, fp)
  {
    var keep, entry := states[0].work[a].fp, At(states[0].files, fp);
    var next := (s, step, s') => PruningNext(a, s, step, s');
    var inv := s => PruneInv(a, keep, fp, entry, s);
    forall s, step, s' | inv(s) && next(s, step, s') ensures inv(s') {
      InvKept(s, step);
      FilesMatchKept(s, step);
      PruneReachedKept(a, keep, fp, entry, s, step, s');
    }
    SegmentKeeps(next, inv, states, steps, |states| - 1);
    assert inv(states[|states| - 1]);
  }

  // ----- A run that leaves a leftover -----

  function Last(states: seq<State>): State
    requires states != []
  {
    states[|states| - 1]
  }

  lemma Extend(states: seq<State>, steps: seq<Step>, step: Step) returns (states': seq<State>, steps': seq<Step>)
    requires IsQuietRun(states, steps) && Enabled(Last(states), step) && !step.Damage?
    ensures IsQuietRun(states', steps') && Last(states') == Apply(Last(states), step)
  {
    states', steps' := states + [Apply(Last(states), step)], steps + [step];
  }

  const ME: Actor := Actor(0, 0)
  const HELD: Lock.State := Lock.State(map[ME := Inside], map[0 := 0], Some(0))

  predicate WorksAlone(s: State, work: Work, files: Store) {
    s.lock == HELD && s.work == map[ME := work] && s.files == files
  }

  // A launcher alone takes the lock.
  lemma Enter(states: seq<State>, steps: seq<Step>) returns (states': seq<State>, steps': seq<Step>)
    requires IsQuietRun(states, steps) && Last(states).lock == Lock.INIT && Last(states).work == map[]
    ensures IsQuietRun(states', steps') && WorksAlone(Last(states'), Locked, Last(states).files)
    ensures Last(states').saves == Last(states).saves
  {
    states', steps' := Extend(states, steps, LockStep(Arrive(ME)));
    states', steps' := Extend(states', steps', LockStep(TakeThreadLock(ME)));
    states', steps' := Extend(states', steps', LockStep(TryFileLock(ME)));
  }

  // It runs Lean and confirms its save.
  lemma Confirm(states: seq<State>, steps: seq<Step>, fp: Fingerprint, files: Store) returns (states': seq<State>, steps': seq<Step>)
    requires IsQuietRun(states, steps) && WorksAlone(Last(states), Locked, files)
    ensures IsQuietRun(states', steps') && WorksAlone(Last(states'), Confirmed(fp, PAIR), files)
    ensures Last(states').saves == Last(states).saves + [Save(fp, PAIR, fp)]
  {
    states', steps' := Extend(states, steps, ComputeFingerprint(ME, fp));
    states', steps' := Extend(states', steps', Choose(ME, true));
    states', steps' := Extend(states', steps', LeanSaved(ME, Some([0]), Some([0])));
    states', steps' := Extend(states', steps', Recheck(ME, fp));
  }

  const PAIR: Pair := Pair([0], [0])

  // And publishes it.
  lemma Publish(states: seq<State>, steps: seq<Step>, fp: Fingerprint, files: Store) returns (states': seq<State>, steps': seq<Step>)
    requires IsQuietRun(states, steps) && WorksAlone(Last(states), Confirmed(fp, PAIR), files)
    ensures IsQuietRun(states', steps') && WorksAlone(Last(states'), Committed(fp, PAIR), files[fp := Published(PAIR)])
    ensures Last(states').saves == Last(states).saves
  {
    states', steps' := Extend(states, steps, ReplaceDeps(ME));
    states', steps' := Extend(states', steps', ReplaceSnapshot(ME));
    states', steps' := Extend(states', steps', WriteManifest(ME));
  }

  // With nothing to prune it leaves.
  lemma EndEmptyPrune(states: seq<State>, steps: seq<Step>, fp: Fingerprint, files: Store) returns (states': seq<State>, steps': seq<Step>)
    requires IsQuietRun(states, steps) && WorksAlone(Last(states), Committed(fp, PAIR), files) && files.Keys == {fp}
    ensures IsQuietRun(states', steps') && WorksAlone(Last(states'), Leaving, files)
    ensures Last(states').saves == Last(states).saves
  {
    states', steps' := Extend(states, steps, ListObsolete(ME, []));
    states', steps' := Extend(states', steps', EndPruning(ME));
  }

  lemma Leave(states: seq<State>, steps: seq<Step>, files: Store) returns (states': seq<State>, steps': seq<Step>)
    requires IsQuietRun(states, steps) && WorksAlone(Last(states), Leaving, files)
    ensures IsQuietRun(states', steps') && Last(states').lock == Lock.INIT && Last(states').work == map[]
    ensures Last(states').files == files
    ensures Last(states').saves == Last(states).saves
  {
    states', steps' := Extend(states, steps, LockStep(EndBody(ME)));
    states', steps' := Extend(states', steps', LockStep(CloseAndLeave(ME)));
  }

  // The second unlink of an obsolete entry fails.
  lemma FailUnlink(states: seq<State>, steps: seq<Step>, files: Store) returns (states': seq<State>, steps': seq<Step>)
    requires IsQuietRun(states, steps) && WorksAlone(Last(states), Committed(1, PAIR), files)
    requires files.Keys == {0, 1} && files[0] == Published(PAIR)
    ensures IsQuietRun(states', steps') && Leftover(At(Last(states').files, 0))
    ensures Last(states').work == map[ME := Pruning(1, PAIR, [], 0)]
  {
    states', steps' := Extend(states, steps, ListObsolete(ME, [0]));
    states', steps' := Extend(states', steps', Unlink(ME, true));
    states', steps' := Extend(states', steps', Unlink(ME, false));
    assert [0][1..] == [];
  }

  // Two launchers run one after the other, with nothing damaged and nothing but
  // one failing unlink: the inputs changed in between, the second one prunes the
  // entry of the first, and its second unlink fails.
  lemma LeftoverReached() returns (states: seq<State>, steps: seq<Step>)
    ensures IsQuietRun(states, steps)
    ensures Leftover(At(Last(states).files, 0)) && HoldsLeftover(0, At(Last(states).files, 0), Last(states))
  {
    states, steps := [State.State(Lock.INIT, map[], map[], [])], [];
    states, steps := Enter(states, steps);
    states, steps := Confirm(states, steps, 0, map[]);
    states, steps := Publish(states, steps, 0, map[]);
    states, steps := EndEmptyPrune(states, steps, 0, map[0 := Published(PAIR)]);
    states, steps := Leave(states, steps, map[0 := Published(PAIR)]);
    states, steps := Enter(states, steps);
    states, steps := Confirm(states, steps, 1, map[0 := Published(PAIR)]);
    states, steps := Publish(states, steps, 1, map[0 := Published(PAIR)]);
    states, steps := FailUnlink(states, steps, map[0 := Published(PAIR), 1 := Published(PAIR)]);
    QuietKeepsInv(states, steps, |states| - 1);
  }

  // One launcher commits; the next one with the same fingerprint loads its pair.
  lemma LoadReached() returns (states: seq<State>, steps: seq<Step>)
    ensures IsQuietRun(states, steps)
    ensures Last(states).work == map[ME := Loading(0, PAIR)] && Last(states).saves == [Save(0, PAIR, 0)]
    ensures Last(states).files == map[0 := Published(PAIR)]
  {
    states, steps := [State.State(Lock.INIT, map[], map[], [])], [];
    states, steps := Enter(states, steps);
    states, steps := Confirm(states, steps, 0, map[]);
    states, steps := Publish(states, steps, 0, map[]);
    states, steps := EndEmptyPrune(states, steps, 0, map[0 := Published(PAIR)]);
    states, steps := Leave(states, steps, map[0 := Published(PAIR)]);
    states, steps := Enter(states, steps);
    states, steps := Extend(states, steps, ComputeFingerprint(ME, 0));
    ChoiceMeans(Last(states), ME, false);
    states, steps := Extend(states, steps, Choose(ME, false));
  }
}
