/** The files scripts/run_incremental_lean.py keeps for one Lean source: for each
    input fingerprint a snapshot, its dependency companion and the manifest that
    authenticates both. */
module SnapshotFiles {
  import opened Options

  type Blob = seq<nat>

  type Fingerprint = nat

  // SHA-256 taken as injective.
  datatype Digest = Sha256(content: Blob)

  datatype Pair = Pair(snapshot: Blob, deps: Blob)

  datatype Manifest = Manifest(
    protocol: string,
    snapshotSize: nat, snapshotSha256: Digest,
    dependenciesSize: nat, dependenciesSha256: Digest)

  // Garbled: unreadable, or not the JSON text of a manifest.
  datatype ManifestFile = Readable(manifest: Manifest) | Garbled

  datatype Entry = Entry(snapshot: Option<Blob>, deps: Option<Blob>, manifest: Option<ManifestFile>)

  type Store = map<Fingerprint, Entry>

  datatype Verdict = Absent | Valid | Incomplete | Unreadable | Mismatch

  const PROTOCOL := "gasm-incremental-lean-full-v3"

  const EMPTY := Entry(None, None, None)

  function At(files: Store, fp: Fingerprint): Entry {
    if fp in files then files[fp] else EMPTY
  }

  function PairManifest(pair: Pair): Manifest {
    Manifest(PROTOCOL, |pair.snapshot|, Sha256(pair.snapshot), |pair.deps|, Sha256(pair.deps))
  }

  predicate Holds(e: Entry, pair: Pair) {
    e.snapshot == Some(pair.snapshot) && e.deps == Some(pair.deps)
  }

  function Validate(e: Entry): Verdict {
    if e == EMPTY then Absent
    else if e.snapshot == None || e.deps == None || e.manifest == None then Incomplete
    else if e.manifest.value.Garbled? then Unreadable
    else if e.manifest.value.manifest != PairManifest(Pair(e.snapshot.value, e.deps.value)) then Mismatch
    else Valid
  }

  // ----- The three atomic replacements of a publication, in order -----

  function PutDeps(e: Entry, pair: Pair): Entry {
    e.(deps := Some(pair.deps))
  }

  function PutSnapshot(e: Entry, pair: Pair): Entry {
    e.(snapshot := Some(pair.snapshot))
  }

  function PutManifest(e: Entry, pair: Pair): Entry {
    e.(manifest := Some(Readable(PairManifest(pair))))
  }

  function Published(pair: Pair): Entry {
    Entry(Some(pair.snapshot), Some(pair.deps), Some(Readable(PairManifest(pair))))
  }

  // The entry when a publication stops after `done` replacements.
  function Interrupted(e: Entry, pair: Pair, done: nat): Entry
    requires done <= 3
  {
    if done == 0 then e
    else if done == 1 then PutDeps(e, pair)
    else if done == 2 then PutSnapshot(PutDeps(e, pair), pair)
    else PutManifest(PutSnapshot(PutDeps(e, pair), pair), pair)
  }

  // The manifest there authenticates exactly the two files there.
  predicate Authenticates(e: Entry) {
    e.snapshot.Some? && e.deps.Some?
    && e.manifest == Some(Readable(PairManifest(Pair(e.snapshot.value, e.deps.value))))
  }

  // Whatever was there before, a publication that is not interrupted leaves a
  // pair that validates.  Interrupted earlier, it validates exactly when the old
  // manifest authenticates the files now there: over an absent entry never, over
  // a valid one only if nothing changed, and after both replacements only when
  // that manifest was already the new pair's.
  lemma PublicationIsAtomic(e: Entry, pair: Pair, done: nat)
    requires done <= 3
    ensures done == 3 ==> Interrupted(e, pair, done) == Published(pair) && Validate(Published(pair)) == Valid
    ensures done < 3 ==> Interrupted(e, pair, done).manifest == e.manifest
    ensures Validate(Interrupted(e, pair, done)) == Valid <==> Authenticates(Interrupted(e, pair, done))
    ensures 0 < done < 3 && e == EMPTY ==> Validate(Interrupted(e, pair, done)) == Incomplete
    ensures 0 < done < 3 && Validate(e) == Valid ==>
              var now := Interrupted(e, pair, done);
              Validate(now) == if now != e then Mismatch else Valid
    ensures done == 2 ==>
              (Validate(Interrupted(e, pair, done)) == Valid <==> e.manifest == Some(Readable(PairManifest(pair))))
  {
  }

  // ----- Pruning one obsolete entry -----

  // Snapshot, dependencies, manifest: unlinked in this order.
  function Unlinked(e: Entry, part: nat): Entry {
    if part == 0 then e.(snapshot := None)
    else if part == 1 then e.(deps := None)
    else e.(manifest := None)
  }

  // The entry when the first `count` unlinks succeeded and the next one failed
  // or none was left.
  function PrunedEntry(e: Entry, count: nat): Entry
    requires count <= 3
  {
    if count == 0 then e else Unlinked(PrunedEntry(e, count - 1), count - 1)
  }

  // A pruned entry is gone or is refused; it never validates.
  lemma PrunedNeverValidates(e: Entry, count: nat)
    requires 0 < count <= 3
    ensures PrunedEntry(e, 3) == EMPTY
    ensures Validate(PrunedEntry(e, count)) ==
            if (count < 3 && e.manifest.Some?) || (count < 2 && e.deps.Some?) then Incomplete else Absent
  {
    assert PrunedEntry(e, 1) == e.(snapshot := None);
    assert PrunedEntry(e, 2) == e.(snapshot := None, deps := None);
    assert PrunedEntry(e, 3) == EMPTY;
  }

  /** The cache directory of one source, as the launcher's own functions change it. */
  class CacheDirectory {
    var files: Store

    constructor (files: Store)
      ensures this.files == files
    {
      this.files := files;
    }

    method ValidateSnapshotPair(fp: Fingerprint) returns (verdict: Verdict)
      ensures verdict == Validate(At(files, fp))
      ensures verdict == Valid <==> exists pair: Pair :: At(files, fp) == Published(pair)
      ensures verdict == Absent <==> At(files, fp) == EMPTY
    {
      var entry := At(files, fp);
      if entry.snapshot.None? && entry.deps.None? && entry.manifest.None? {
        return Absent;
      }
      if entry.snapshot.None? || entry.deps.None? || entry.manifest.None? {
        return Incomplete;
      }
      if entry.manifest.value.Garbled? {
        return Unreadable;
      }
      var pair := Pair(entry.snapshot.value, entry.deps.value);
      if entry.manifest.value.manifest != PairManifest(pair) {
        return Mismatch;
      }
      assert entry == Published(pair);
      return Valid;
    }

    method PublishSnapshotPair(fp: Fingerprint, pair: Pair)
      modifies this
      ensures files == old(files)[fp := Published(pair)]
      ensures Validate(At(files, fp)) == Valid
    {
      files := files[fp := PutDeps(At(files, fp), pair)];
      files := files[fp := PutSnapshot(files[fp], pair)];
      files := files[fp := PutManifest(files[fp], pair)];
    }

    // succeeds[fp] of the three unlinks of an obsolete entry succeed before one
    // fails; an entry without a snapshot file is not listed at all.
    method PruneObsoleteSnapshots(keep: Fingerprint, succeeds: map<Fingerprint, nat>)
      requires forall fp | fp in files :: fp in succeeds && succeeds[fp] <= 3
      modifies this
      ensures files.Keys == old(files).Keys
      ensures forall fp | fp in files ::
                files[fp] == if fp != keep && old(files)[fp].snapshot.Some?
                             then PrunedEntry(old(files)[fp], succeeds[fp]) else old(files)[fp]
    {
      ghost var was := files;
      var todo := set fp | fp in files && fp != keep && files[fp].snapshot.Some?;
      while todo != {}
        invariant todo <= files.Keys == was.Keys
        invariant forall fp | fp in todo :: files[fp] == was[fp] && fp != keep && was[fp].snapshot.Some?
        invariant forall fp | fp in files && fp !in todo ::
                    files[fp] == if fp != keep && was[fp].snapshot.Some? then PrunedEntry(was[fp], succeeds[fp]) else was[fp]
        decreases |todo|
      {
        var obsolete :| obsolete in todo;
        var entry := files[obsolete];
        for part := 0 to succeeds[obsolete]
          invariant entry == PrunedEntry(was[obsolete], part)
        {
          entry := Unlinked(entry, part);
        }
        files := files[obsolete := entry];
        todo := todo - {obsolete};
      }
    }
  }
}
