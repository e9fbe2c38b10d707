/** The reference registry of scripts/check_references.py and its byte cache:
    refresh, acknowledged drift, crashes in between, and the offline check. */
module References {
  import opened Options
  import opened Text
  import opened Decimal
  import opened Reviewers
  import opened CachePaths

  type Blob = seq<nat>

  // What stands for the platform: its characters and domains, SHA-256, and the
  // file each path under the cache directory names.
  datatype World = World(unicode: Unicode, sha: Blob -> string, file: string -> File)

  const OK: nat := 0
  const SCHEMA_ERROR: nat := 1
  const UNREGISTERED_SLUG: nat := 2
  const CACHE_MISSING: nat := 3
  const HASH_MISMATCH: nat := 4
  const FETCH_FAILED: nat := 7
  const DRIFT_DETECTED: nat := 8
  const BAD_ARGS: nat := 9

  // The required fields no operation changes beside slug, corpus, url and media type.
  datatype Fixed = Fixed(title: string, edition: string, license: string, distribution: string, anchorMode: string, pageCount: Option<int>)

  datatype Entry = Entry(
    slug: string, corpus: string, url: string, mediaType: string, fixed: Fixed,
    sha256: string, fetchedDate: string, lastReviewed: string, reviewer: string, reviewNote: string)

  // Broken: missing, or no parsable array of entries.
  datatype RegistryFile = Broken | Parsed(entries: seq<Entry>)

  // ----- Schema -----

  function Extension(mediaType: string): Option<string> {
    if mediaType == "markdown" then Some(".md")
    else if mediaType == "html" then Some(".html")
    else if mediaType == "pdf" then Some(".pdf")
    else if mediaType == "json" then Some(".json")
    else if mediaType == "plain-text" then Some(".txt")
    else if mediaType == "c-header" then Some(".h")
    else if mediaType == "c-source" then Some(".cpp")
    else None
  }

  function ExpectedDistribution(license: string): Option<string> {
    if license in {"intel-sdm-unmodified-only", "khronos-spec-copyright", "ti-unmodified-only", "arm-unmodified-only"}
    then Some("unmodified-copy-only")
    else if license == "khronos-headers-permissive" then Some("no-restriction")
    else if license in {"w3c-document-license", "w3c-cla-fsa", "apache-2.0-or-mit", "ietf-rfc-1996-notice",
                        "zlib-license", "mit-or-unlicense", "cc-by-4.0"}
    then Some("attribution-required")
    else None
  }

  predicate FixedAccepted(f: Fixed) {
    && !IsBlank(f.title) && !IsBlank(f.edition)
    && f.anchorMode in {"heading", "pdf-locator", "json-pointer", "rfc-section", "c-symbol"}
    && ExpectedDistribution(f.license).Some?
    && (f.distribution == ExpectedDistribution(f.license).value || f.distribution == "unclear")
    && (f.anchorMode == "pdf-locator" ==> f.pageCount.Some? && f.pageCount.value > 0)
  }

  predicate IsHex64(s: string) {
    |s| == 64 && forall i | 0 <= i < |s| :: IsDigit(s[i]) || 'a' <= s[i] <= 'f'
  }

  predicate EntryAccepted(u: Unicode, e: Entry) {
    && !IsBlank(e.slug) && !IsBlank(e.corpus) && !IsBlank(e.url) && !IsBlank(e.fetchedDate)
    && !IsBlank(e.lastReviewed) && !IsBlank(e.reviewNote)
    && Normalize(u, e.reviewer) == Some(e.reviewer)
    && Extension(e.mediaType).Some?
    && FixedAccepted(e.fixed)
    && IsHex64(e.sha256)
  }

  predicate DistinctSlugs(entries: seq<Entry>) {
    forall i, j | 0 <= i < j < |entries| :: entries[i].slug != entries[j].slug
  }

  predicate AcceptedAt(u: Unicode, entries: seq<Entry>, i: nat) {
    i < |entries| && EntryAccepted(u, entries[i])
  }

  predicate AllAccepted(u: Unicode, entries: seq<Entry>) {
    forall i {:trigger AcceptedAt(u, entries, i)} | 0 <= i < |entries| :: AcceptedAt(u, entries, i)
  }

  predicate Loads(u: Unicode, file: RegistryFile) {
    file.Parsed? && DistinctSlugs(file.entries) && AllAccepted(u, file.entries)
  }

  function Find(entries: seq<Entry>, slug: string): (found: Option<Entry>)
    ensures found.Some? ==> found.value in entries && found.value.slug == slug
    ensures found.None? ==> forall e | e in entries :: e.slug != slug
  {
    if entries == [] then None
    else if entries[0].slug == slug then Some(entries[0])
    else Find(entries[1..], slug)
  }

  // ----- The cache -----

  // As spelled under the cache directory.
  function CacheName(e: Entry): string {
    match Extension(e.mediaType)
    case Some(ext) => e.slug + ext
    case None => e.slug
  }

  function CachePath(w: World, e: Entry): File {
    w.file(CacheName(e))
  }

  predicate PlainSlug(e: Entry) {
    Without(e.slug, '/') && e.slug != ""
  }

  lemma NamesDistinct(d: Entry, e: Entry)
    requires Extension(d.mediaType).Some? && Extension(e.mediaType).Some? && d.slug != e.slug
    ensures CacheName(d) != CacheName(e)
  {
    var x, y := Extension(d.mediaType).value, Extension(e.mediaType).value;
    var p, q := CacheName(d), CacheName(e);
    assert p[|p| - 1] == x[|x| - 1] && q[|q| - 1] == y[|y| - 1];
    if x == y {
      assert p[..|p| - |x|] == d.slug && q[..|q| - |y|] == e.slug;
    }
  }

  lemma PlainCacheName(e: Entry)
    requires PlainSlug(e) && Extension(e.mediaType).Some?
    ensures IsPlainName(CacheName(e))
  {
    var x := Extension(e.mediaType).value;
    assert Without(x, '/') && x[|x| - 1] != '.';
    assert CacheName(e)[|CacheName(e)| - 1] == x[|x| - 1];
  }

  // Accepted entries whose slugs hold no slash share a cache file only if they
  // have the same slug.
  lemma CachePathsDistinct(w: World, d: Entry, e: Entry)
    requires NamesFiles(w.file) && PlainSlug(d) && PlainSlug(e)
    requires Extension(d.mediaType).Some? && Extension(e.mediaType).Some? && d.slug != e.slug
    ensures CachePath(w, d) != CachePath(w, e)
  {
    NamesDistinct(d, e);
    PlainCacheName(d);
    PlainCacheName(e);
  }

  // With a slash they may: the slugs `x` and `./x` are different slugs.
  lemma DotSlashShares(w: World, d: Entry, e: Entry)
    requires NamesFiles(w.file) && PlainSlug(d)
    requires e.slug == "./" + d.slug && e.mediaType == d.mediaType
    ensures d.slug != e.slug && CachePath(w, d) == CachePath(w, e)
  {
    assert d.slug[0] != '/' && CacheName(d)[0] == d.slug[0];
    DotSlash(CacheName(d));
    assert CacheName(e) == "./" + CacheName(d);
    assert |e.slug| == 2 + |d.slug|;
  }

  // The digest is always taken of the bytes on disk.
  function VerifyCache(w: World, cache: map<File, Blob>, e: Entry): nat {
    if CachePath(w, e) !in cache then CACHE_MISSING
    else if w.sha(cache[CachePath(w, e)]) != e.sha256 then HASH_MISMATCH
    else OK
  }

  // ----- Refresh and acknowledged drift, as changes of the two stores -----

  datatype Index = Index(registry: RegistryFile, cache: map<File, Blob>)

  datatype Selection = BySlug(slug: string) | ByCorpus(corpus: string) | All | Nothing

  function InCorpus(entries: seq<Entry>, corpus: string): (r: seq<Entry>)
    ensures forall e | e in r :: e in entries && e.corpus == corpus
  {
    if entries == [] then []
    else if entries[0].corpus == corpus then [entries[0]] + InCorpus(entries[1..], corpus)
    else InCorpus(entries[1..], corpus)
  }

  function Targets(entries: seq<Entry>, selection: Selection): (r: seq<Entry>)
    ensures forall e | e in r :: e in entries
  {
    match selection
    case BySlug(slug) => if Find(entries, slug).Some? then [Find(entries, slug).value] else []
    case ByCorpus(corpus) => InCorpus(entries, corpus)
    case All => entries
    case Nothing => []
  }

  function FetchCode(w: World, e: Entry, data: Option<Blob>): nat {
    if data.None? then FETCH_FAILED
    else if w.sha(data.value) != e.sha256 then DRIFT_DETECTED
    else OK
  }

  // The cache after the first n targets.  Bytes enter it only when they hash to
  // the recorded pin.
  function RefreshedCache(w: World, cache: map<File, Blob>, targets: seq<Entry>, n: nat, fetch: string -> Option<Blob>): map<File, Blob>
    requires n <= |targets|
  {
    if n == 0 then cache
    else
      var before := RefreshedCache(w, cache, targets, n - 1, fetch);
      var e := targets[n - 1];
      if FetchCode(w, e, fetch(e.slug)) == OK then before[CachePath(w, e) := fetch(e.slug).value] else before
  }

  function WorstCode(w: World, targets: seq<Entry>, n: nat, fetch: string -> Option<Blob>): nat
    requires n <= |targets|
  {
    if n == 0 then OK
    else
      var before := WorstCode(w, targets, n - 1, fetch);
      var code := FetchCode(w, targets[n - 1], fetch(targets[n - 1].slug));
      if code > before then code else before
  }

  datatype Drift = Drift(slug: string, reviewer: string, note: string, today: string)

  function RepinnedEntry(e: Entry, drift: Drift, sha256: string, reviewer: string): Entry {
    if e.slug == drift.slug then
      e.(sha256 := sha256, fetchedDate := drift.today, lastReviewed := drift.today,
         reviewer := reviewer, reviewNote := drift.note)
    else e
  }

  function Repinned(entries: seq<Entry>, drift: Drift, sha256: string, reviewer: string): (r: seq<Entry>)
    ensures |r| == |entries|
    ensures forall i | 0 <= i < |r| :: r[i] == RepinnedEntry(entries[i], drift, sha256, reviewer)
  {
    seq(|entries|, i requires 0 <= i < |entries| => RepinnedEntry(entries[i], drift, sha256, reviewer))
  }

  // Why an acknowledgement stops before it writes anything; OK when it writes.
  function AcknowledgeCode(w: World, registry: RegistryFile, drift: Drift, data: Option<Blob>): nat {
    if drift.reviewer == "" || drift.note == "" || drift.slug == "" then BAD_ARGS
    else if Normalize(w.unicode, drift.reviewer).None? then BAD_ARGS
    else if !Loads(w.unicode, registry) then SCHEMA_ERROR
    else if Find(registry.entries, drift.slug).None? then UNREGISTERED_SLUG
    else if data.None? then FETCH_FAILED
    else if w.sha(data.value) == Find(registry.entries, drift.slug).value.sha256 then BAD_ARGS
    else OK
  }

  function NewRegistry(w: World, registry: RegistryFile, drift: Drift, data: Option<Blob>): RegistryFile
    requires AcknowledgeCode(w, registry, drift, data) == OK
  {
    Parsed(Repinned(registry.entries, drift, w.sha(data.value), Normalize(w.unicode, drift.reviewer).value))
  }

  function NewCache(w: World, index: Index, drift: Drift, data: Option<Blob>): map<File, Blob>
    requires AcknowledgeCode(w, index.registry, drift, data) == OK
  {
    index.cache[CachePath(w, Find(index.registry.entries, drift.slug).value) := data.value]
  }

  datatype Action =
    | Refresh(selection: Selection, fetch: string -> Option<Blob>)
    | Acknowledge(drift: Drift, data: Option<Blob>)

  function RefreshCode(w: World, registry: RegistryFile, selection: Selection, fetch: string -> Option<Blob>): nat {
    if !Loads(w.unicode, registry) then SCHEMA_ERROR
    else if selection.BySlug? && Find(registry.entries, selection.slug).None? then UNREGISTERED_SLUG
    else if selection.Nothing? then BAD_ARGS
    else
      var targets := Targets(registry.entries, selection);
      WorstCode(w, targets, |targets|, fetch)
  }

  function Apply(w: World, index: Index, action: Action): Index {
    match action
    case Refresh(selection, fetch) =>
      if !Loads(w.unicode, index.registry) then index
      else
        var targets := Targets(index.registry.entries, selection);
        index.(cache := RefreshedCache(w, index.cache, targets, |targets|, fetch))
    case Acknowledge(drift, data) =>
      if AcknowledgeCode(w, index.registry, drift, data) == OK
      then Index(NewRegistry(w, index.registry, drift, data), NewCache(w, index, drift, data))
      else index
  }

  // ----- What the commands do, on the inputs alone -----

  predicate Selects(selection: Selection, e: Entry) {
    match selection
    case BySlug(slug) => e.slug == slug
    case ByCorpus(corpus) => e.corpus == corpus
    case All => true
    case Nothing => false
  }

  lemma {:induction false} InCorpusMeans(entries: seq<Entry>, corpus: string)
    ensures forall e :: e in InCorpus(entries, corpus) <==> e in entries && e.corpus == corpus
  {
    if entries != [] {
      InCorpusMeans(entries[1..], corpus);
      assert entries == [entries[0]] + entries[1..];
    }
  }

  // The targets are exactly the entries selected.
  lemma TargetsMean(entries: seq<Entry>, selection: Selection)
    requires SlugsIdentify(entries)
    ensures forall e :: e in Targets(entries, selection) <==> e in entries && Selects(selection, e)
  {
    match selection
    case BySlug(slug) =>
      var found := Find(entries, slug);
      assert forall e | e in entries && e.slug == slug :: found.Some? && e == found.value;
    case ByCorpus(corpus) => InCorpusMeans(entries, corpus);
    case All =>
    case Nothing =>
  }

  predicate Matches(w: World, e: Entry, data: Option<Blob>) {
    data.Some? && w.sha(data.value) == e.sha256
  }

  predicate Drifted(w: World, e: Entry, data: Option<Blob>) {
    data.Some? && w.sha(data.value) != e.sha256
  }

  lemma {:induction false} WorstMeans(w: World, targets: seq<Entry>, n: nat, fetch: string -> Option<Blob>)
    requires n <= |targets|
    ensures var code := WorstCode(w, targets, n, fetch);
            && (code == 0 <==> forall j | 0 <= j < n :: Matches(w, targets[j], fetch(targets[j].slug)))
            && (code == 8 <==> exists j | 0 <= j < n :: Drifted(w, targets[j], fetch(targets[j].slug)))
            && code in {0, 7, 8}
  {
    if n > 0 {
      WorstMeans(w, targets, n - 1, fetch);
      var e := targets[n - 1];
      assert Matches(w, e, fetch(e.slug)) || Drifted(w, e, fetch(e.slug)) || fetch(e.slug).None?;
    }
  }

  // The exit code of a refresh over these entries: 8 when some selected entry
  // drifted, else 7 when some fetch failed, else 0.
  predicate IsRefreshCode(w: World, entries: seq<Entry>, selection: Selection, fetch: string -> Option<Blob>, code: nat) {
    && (code == 8 <==> exists e | e in entries :: Selects(selection, e) && Drifted(w, e, fetch(e.slug)))
    && (code == 0 <==> forall e | e in entries && Selects(selection, e) :: Matches(w, e, fetch(e.slug)))
    && code in {0, 7, 8}
  }

  lemma WorstOfSelected(w: World, entries: seq<Entry>, selection: Selection, fetch: string -> Option<Blob>)
    requires SlugsIdentify(entries)
    ensures var targets := Targets(entries, selection);
            IsRefreshCode(w, entries, selection, fetch, WorstCode(w, targets, |targets|, fetch))
  {
    var targets := Targets(entries, selection);
    TargetsMean(entries, selection);
    WorstMeans(w, targets, |targets|, fetch);
    assert forall e | e in targets :: exists j | 0 <= j < |targets| :: targets[j] == e;
    assert forall j | 0 <= j < |targets| :: targets[j] in targets;
  }

  // The exit code of a refresh; 1, 2 and 9 before anything is fetched.
  lemma RefreshMeans(w: World, registry: RegistryFile, selection: Selection, fetch: string -> Option<Blob>)
    ensures var code := RefreshCode(w, registry, selection, fetch);
            if !Loads(w.unicode, registry) then code == 1
            else if selection.Nothing? then code == 9
            else if selection.BySlug? && forall e | e in registry.entries :: e.slug != selection.slug then code == 2
            else IsRefreshCode(w, registry.entries, selection, fetch, code)
  {
    if Loads(w.unicode, registry) {
      LoadedSlugs(w.unicode, registry);
      WorstOfSelected(w, registry.entries, selection, fetch);
    }
  }

  // What a refresh leaves in the file of an entry, where entries name different
  // files: the fetched bytes if the entry is selected and they hash to its pin,
  // and else what was there.  The registry stays as it was.
  lemma RefreshWrites(w: World, index: Index, selection: Selection, fetch: string -> Option<Blob>, e: Entry)
    requires Loads(w.unicode, index.registry) && FilesDistinct(w, index.registry.entries) && e in index.registry.entries
    ensures var after := Apply(w, index, Refresh(selection, fetch));
            && after.registry == index.registry
            && if Selects(selection, e) && Matches(w, e, fetch(e.slug))
               then CachePath(w, e) in after.cache && after.cache[CachePath(w, e)] == fetch(e.slug).value
               else SameFile(index.cache, after.cache, CachePath(w, e))
  {
    var targets := Targets(index.registry.entries, selection);
    LoadedSlugs(w.unicode, index.registry);
    TargetsMean(index.registry.entries, selection);
    OwnFile(w, index.registry, selection, e);
    RefreshedPointwise(w, index.cache, targets, |targets|, fetch, e);
  }

  // The exit code of an acknowledgement.
  lemma AcknowledgeMeans(w: World, registry: RegistryFile, drift: Drift, data: Option<Blob>)
    ensures var code := AcknowledgeCode(w, registry, drift, data);
            if drift.reviewer == "" || drift.note == "" || drift.slug == "" || Normalize(w.unicode, drift.reviewer) == None
            then code == 9
            else if !Loads(w.unicode, registry) then code == 1
            else
              && (code == 2 <==> forall e | e in registry.entries :: e.slug != drift.slug)
              && (forall e | e in registry.entries && e.slug == drift.slug ::
                    && (code == 7 <==> data == None)
                    && (code == 9 <==> Matches(w, e, data))
                    && (code == 0 <==> Drifted(w, e, data)))
  {
    if Loads(w.unicode, registry) {
      LoadedSlugs(w.unicode, registry);
    }
  }

  // Exactly the entry of the slug is rewritten, in these five fields.
  predicate IsRepinned(was: seq<Entry>, now: seq<Entry>, drift: Drift, sha: string, reviewer: string) {
    && |now| == |was|
    && (forall i | 0 <= i < |was| && was[i].slug != drift.slug :: now[i] == was[i])
    && (forall i | 0 <= i < |was| && was[i].slug == drift.slug ::
          && now[i].sha256 == sha && now[i].reviewer == reviewer && now[i].reviewNote == drift.note
          && now[i].fetchedDate == drift.today && now[i].lastReviewed == drift.today
          && now[i].slug == was[i].slug && now[i].corpus == was[i].corpus && now[i].url == was[i].url
          && now[i].mediaType == was[i].mediaType && now[i].fixed == was[i].fixed)
  }

  lemma RepinnedMeans(was: seq<Entry>, drift: Drift, sha: string, reviewer: string)
    ensures IsRepinned(was, Repinned(was, drift, sha, reviewer), drift, sha, reviewer)
  {
  }

  // An acknowledgement that exits 0 re-pins the entry of the slug to the fetched
  // bytes and writes them to its file; any other leaves everything alone.
  lemma AcknowledgeWrites(w: World, index: Index, drift: Drift, data: Option<Blob>, reviewer: string)
    requires Normalize(w.unicode, drift.reviewer).Some? ==> Normalize(w.unicode, drift.reviewer) == Some(reviewer)
    ensures var code, after := AcknowledgeCode(w, index.registry, drift, data), Apply(w, index, Acknowledge(drift, data));
            && (code != 0 ==> after == index)
            && (code == 0 ==>
                  && data.Some? && index.registry.Parsed? && after.registry.Parsed?
                  && IsRepinned(index.registry.entries, after.registry.entries, drift, w.sha(data.value), reviewer)
                  && forall e | e in index.registry.entries && e.slug == drift.slug ::
                       after.cache == index.cache[CachePath(w, e) := data.value])
  {
    if AcknowledgeCode(w, index.registry, drift, data) == OK {
      RepinnedMeans(index.registry.entries, drift, w.sha(data.value), reviewer);
      FoundOnly(w.unicode, index.registry, drift.slug);
    }
  }

  lemma FoundOnly(u: Unicode, registry: RegistryFile, slug: string)
    requires Loads(u, registry)
    ensures forall e | e in registry.entries && e.slug == slug :: Find(registry.entries, slug) == Some(e)
  {
    LoadedSlugs(u, registry);
  }

  // ----- What every crash-free sequence of operations keeps -----

  // Every cached file hashes to the pin of its entry.
  predicate PinsMatch(w: World, index: Index) {
    index.registry.Parsed? ==> forall e | e in index.registry.entries :: EntryMatches(w, index.cache, e)
  }

  predicate EntryMatches(w: World, cache: map<File, Blob>, e: Entry) {
    CachePath(w, e) in cache ==> w.sha(cache[CachePath(w, e)]) == e.sha256
  }

  // No two entries name the same cache file.
  predicate FilesDistinct(w: World, entries: seq<Entry>) {
    forall d, e | d in entries && e in entries && d.slug != e.slug :: CachePath(w, d) != CachePath(w, e)
  }

  predicate SlugsIdentify(entries: seq<Entry>) {
    forall d, e | d in entries && e in entries && d.slug == e.slug :: d == e
  }

  lemma LoadedSlugs(u: Unicode, file: RegistryFile)
    requires Loads(u, file)
    ensures SlugsIdentify(file.entries)
    ensures forall e | e in file.entries :: EntryAccepted(u, e)
  {
    forall e | e in file.entries ensures EntryAccepted(u, e) {
      var i :| 0 <= i < |file.entries| && file.entries[i] == e;
      assert AcceptedAt(u, file.entries, i);
    }
  }

  // Slugs without a slash are enough.
  lemma PlainSlugsApart(w: World, file: RegistryFile)
    requires NamesFiles(w.file) && Loads(w.unicode, file) && forall e | e in file.entries :: PlainSlug(e)
    ensures FilesDistinct(w, file.entries)
  {
    LoadedSlugs(w.unicode, file);
    forall d, e | d in file.entries && e in file.entries && d.slug != e.slug ensures CachePath(w, d) != CachePath(w, e) {
      CachePathsDistinct(w, d, e);
    }
  }

  predicate SameFile(before: map<File, Blob>, after: map<File, Blob>, path: File) {
    (path in after <==> path in before) && (path in after ==> after[path] == before[path])
  }

  // One target of a refresh: its own file may change, to bytes that match its
  // pin; no other entry's file does.
  predicate AmongFirst(targets: seq<Entry>, n: nat, e: Entry) {
    n <= |targets| && exists j | 0 <= j < n :: targets[j] == e
  }

  lemma {:induction false} RefreshedPointwise(w: World, cache: map<File, Blob>, targets: seq<Entry>, n: nat, fetch: string -> Option<Blob>, e: Entry)
    requires n <= |targets|
    requires forall t | t in targets && t != e :: CachePath(w, t) != CachePath(w, e)
    ensures var after := RefreshedCache(w, cache, targets, n, fetch);
            if AmongFirst(targets, n, e) && FetchCode(w, e, fetch(e.slug)) == OK
            then CachePath(w, e) in after && after[CachePath(w, e)] == fetch(e.slug).value
            else SameFile(cache, after, CachePath(w, e))
  {
    if n > 0 {
      RefreshedPointwise(w, cache, targets, n - 1, fetch, e);
      assert targets[n - 1] in targets;
      assert AmongFirst(targets, n, e) <==> AmongFirst(targets, n - 1, e) || targets[n - 1] == e;
    }
  }

  // Where entries name different files no other target shares the file of e.
  lemma OwnFile(w: World, registry: RegistryFile, selection: Selection, e: Entry)
    requires Loads(w.unicode, registry) && FilesDistinct(w, registry.entries) && e in registry.entries
    ensures forall t | t in Targets(registry.entries, selection) && t != e :: CachePath(w, t) != CachePath(w, e)
    ensures var targets := Targets(registry.entries, selection);
            AmongFirst(targets, |targets|, e) <==> e in targets
  {
    LoadedSlugs(w.unicode, registry);
  }

  lemma RefreshKeepsPins(w: World, index: Index, selection: Selection, fetch: string -> Option<Blob>)
    requires Loads(w.unicode, index.registry) && FilesDistinct(w, index.registry.entries) && PinsMatch(w, index)
    ensures PinsMatch(w, Apply(w, index, Refresh(selection, fetch)))
  {
    var targets := Targets(index.registry.entries, selection);
    forall e | e in index.registry.entries
      ensures EntryMatches(w, RefreshedCache(w, index.cache, targets, |targets|, fetch), e)
    {
      assert EntryMatches(w, index.cache, e);
      OwnFile(w, index.registry, selection, e);
      RefreshedPointwise(w, index.cache, targets, |targets|, fetch, e);
    }
  }

  lemma AcknowledgeKeepsPins(w: World, index: Index, drift: Drift, data: Option<Blob>)
    requires AcknowledgeCode(w, index.registry, drift, data) == OK && PinsMatch(w, index)
    requires FilesDistinct(w, index.registry.entries)
    ensures PinsMatch(w, Apply(w, index, Acknowledge(drift, data)))
  {
    var entries := index.registry.entries;
    LoadedSlugs(w.unicode, index.registry);
    var own := Find(entries, drift.slug).value;
    RepinKeepsPins(w, index.cache, entries, own, drift, data.value, Normalize(w.unicode, drift.reviewer).value);
  }

  lemma RepinKeepsPins(w: World, cache: map<File, Blob>, entries: seq<Entry>, own: Entry, drift: Drift, data: Blob, reviewer: string)
    requires FilesDistinct(w, entries) && SlugsIdentify(entries) && own in entries && own.slug == drift.slug
    requires forall e | e in entries :: EntryMatches(w, cache, e)
    ensures forall e | e in Repinned(entries, drift, w.sha(data), reviewer) :: EntryMatches(w, cache[CachePath(w, own) := data], e)
  {
    forall i | 0 <= i < |entries|
      ensures EntryMatches(w, cache[CachePath(w, own) := data], RepinnedEntry(entries[i], drift, w.sha(data), reviewer))
    {
      assert EntryMatches(w, cache, entries[i]);
      assert CachePath(w, RepinnedEntry(entries[i], drift, w.sha(data), reviewer)) == CachePath(w, entries[i]);
    }
  }

  function Run(w: World, index: Index, actions: seq<Action>): Index
    decreases |actions|
  {
    if actions == [] then index else Apply(w, Run(w, index, actions[..|actions| - 1]), actions[|actions| - 1])
  }

  // A registry that loads names its cache files apart, and still does after it
  // was re-pinned.
  predicate NamesApart(w: World, file: RegistryFile) {
    Loads(w.unicode, file) ==> FilesDistinct(w, file.entries)
  }

  lemma RepinnedApart(w: World, entries: seq<Entry>, drift: Drift, sha: string, reviewer: string)
    requires FilesDistinct(w, entries)
    ensures FilesDistinct(w, Repinned(entries, drift, sha, reviewer))
  {
    var after := Repinned(entries, drift, sha, reviewer);
    forall d, e | d in after && e in after && d.slug != e.slug ensures CachePath(w, d) != CachePath(w, e) {
      var i :| 0 <= i < |after| && after[i] == d;
      var j :| 0 <= j < |after| && after[j] == e;
      assert CachePath(w, entries[i]) == CachePath(w, d) && CachePath(w, entries[j]) == CachePath(w, e);
    }
  }

  lemma NamesApartKept(w: World, index: Index, action: Action)
    requires NamesApart(w, index.registry)
    ensures NamesApart(w, Apply(w, index, action).registry)
  {
    if action.Acknowledge? && AcknowledgeCode(w, index.registry, action.drift, action.data) == OK {
      var reviewer := Normalize(w.unicode, action.drift.reviewer).value;
      RepinnedApart(w, index.registry.entries, action.drift, w.sha(action.data.value), reviewer);
    }
  }

  // From a cold cache, whatever is fetched when, each cached file hashes to the
  // recorded pin after every operation: the offline check may find a file
  // missing but never a mismatch.
  lemma {:induction false} RunKeepsPins(w: World, registry: RegistryFile, actions: seq<Action>)
    requires NamesApart(w, registry)
    ensures PinsMatch(w, Run(w, Index(registry, map[]), actions))
    ensures NamesApart(w, Run(w, Index(registry, map[]), actions).registry)
    decreases |actions|
  {
    if actions != [] {
      var before := Run(w, Index(registry, map[]), actions[..|actions| - 1]);
      RunKeepsPins(w, registry, actions[..|actions| - 1]);
      NamesApartKept(w, before, actions[|actions| - 1]);
      match actions[|actions| - 1]
      case Refresh(selection, fetch) =>
        if Loads(w.unicode, before.registry) {
          RefreshKeepsPins(w, before, selection, fetch);
        }
      case Acknowledge(drift, data) =>
        if AcknowledgeCode(w, before.registry, drift, data) == OK {
          AcknowledgeKeepsPins(w, before, drift, data);
        }
    }
  }

  predicate HashesToNeither(sha: Blob -> string, b: Blob, x: string, y: string) {
    sha(b) != x && sha(b) != y
  }

  // For any two digests some bytes hash to neither.
  ghost predicate OtherDigests(sha: Blob -> string) {
    forall x, y :: OtherThan(sha, x, y)
  }

  ghost predicate OtherThan(sha: Blob -> string, x: string, y: string) {
    exists b :: HashesToNeither(sha, b, x, y)
  }

  // Acknowledging drift of d, with data of another digest.
  lemma Acknowledged(w: World, registry: RegistryFile, d: Entry, drift: Drift, b: Blob)
    requires Loads(w.unicode, registry) && d in registry.entries && w.sha(b) != d.sha256
    requires drift.slug == d.slug && drift.reviewer == d.reviewer && drift.note != ""
    ensures AcknowledgeCode(w, registry, drift, Some(b)) == OK && Find(registry.entries, d.slug) == Some(d)
  {
    LoadedSlugs(w.unicode, registry);
    assert EntryAccepted(w.unicode, d);
  }

  // It spoils another entry that shares the file.
  lemma SharedFileSpoils(w: World, registry: RegistryFile, d: Entry, e: Entry, drift: Drift, b: Blob)
    requires AcknowledgeCode(w, registry, drift, Some(b)) == OK && Find(registry.entries, drift.slug) == Some(d)
    requires e in registry.entries && d.slug != e.slug && CachePath(w, d) == CachePath(w, e) && w.sha(b) != e.sha256
    ensures !PinsMatch(w, Apply(w, Index(registry, map[]), Acknowledge(drift, Some(b))))
  {
    var after := Apply(w, Index(registry, map[]), Acknowledge(drift, Some(b)));
    var i :| 0 <= i < |registry.entries| && registry.entries[i] == e;
    assert after.registry.entries[i] == e;
    assert !EntryMatches(w, after.cache, e);
  }

  lemma RunOne(w: World, index: Index, action: Action)
    ensures Run(w, index, [action]) == Apply(w, index, action)
  {
    assert [action][..0] == [];
  }

  ghost predicate KeepsPins(w: World, registry: RegistryFile) {
    forall actions :: PinsMatch(w, Run(w, Index(registry, map[]), actions))
  }

  // Exactly the registries whose entries name different files keep their pins in
  // every run from a cold cache; the schema does not ask for it.
  lemma PinsKeptIff(w: World, registry: RegistryFile)
    requires OtherDigests(w.sha) && Loads(w.unicode, registry)
    ensures KeepsPins(w, registry) <==> FilesDistinct(w, registry.entries)
  {
    if FilesDistinct(w, registry.entries) {
      forall actions ensures PinsMatch(w, Run(w, Index(registry, map[]), actions)) {
        RunKeepsPins(w, registry, actions);
      }
    } else {
      var d, e :| d in registry.entries && e in registry.entries && d.slug != e.slug && CachePath(w, d) == CachePath(w, e);
      assert OtherThan(w.sha, d.sha256, e.sha256);
      var b :| HashesToNeither(w.sha, b, d.sha256, e.sha256);
      var drift := Drift(d.slug, d.reviewer, "-", "-");
      Acknowledged(w, registry, d, drift, b);
      SharedFileSpoils(w, registry, d, e, drift, b);
      RunOne(w, Index(registry, map[]), Acknowledge(drift, Some(b)));
    }
  }

  // The last of the first n targets that names the file.
  function LastNaming(w: World, targets: seq<Entry>, n: nat, file: File): (last: Option<Entry>)
    requires n <= |targets|
    ensures last.Some? ==> last.value in targets && CachePath(w, last.value) == file
    ensures last.None? ==> forall j | 0 <= j < n :: CachePath(w, targets[j]) != file
  {
    if n == 0 then None
    else if CachePath(w, targets[n - 1]) == file then Some(targets[n - 1])
    else LastNaming(w, targets, n - 1, file)
  }

  lemma {:induction false} RefreshedHoldsLast(w: World, cache: map<File, Blob>, targets: seq<Entry>, n: nat, fetch: string -> Option<Blob>, file: File)
    requires n <= |targets| && WorstCode(w, targets, n, fetch) == OK
    ensures var after, last := RefreshedCache(w, cache, targets, n, fetch), LastNaming(w, targets, n, file);
            last.Some? ==> file in after && w.sha(after[file]) == last.value.sha256
  {
    if n > 0 {
      RefreshedHoldsLast(w, cache, targets, n - 1, fetch, file);
    }
  }

  // Refresh never changes a pin.  When it reports success, a selected entry
  // verifies exactly when the last selected one that names the same file has the
  // same pin: always, where entries name different files.
  lemma RefreshVerifies(w: World, index: Index, selection: Selection, fetch: string -> Option<Blob>, e: Entry)
    requires Loads(w.unicode, index.registry) && e in Targets(index.registry.entries, selection)
    requires RefreshCode(w, index.registry, selection, fetch) == OK
    ensures var targets := Targets(index.registry.entries, selection);
            var after, last := Apply(w, index, Refresh(selection, fetch)), LastNaming(w, targets, |targets|, CachePath(w, e));
            && after.registry == index.registry && last.Some?
            && (VerifyCache(w, after.cache, e) == OK <==> last.value.sha256 == e.sha256)
            && (FilesDistinct(w, index.registry.entries) ==> last.value == e)
  {
    var targets := Targets(index.registry.entries, selection);
    LoadedSlugs(w.unicode, index.registry);
    RefreshedHoldsLast(w, index.cache, targets, |targets|, fetch, CachePath(w, e));
  }

  // ----- Acknowledged drift and the schema -----

  // What the platform provides: the date is text, digests are 64 hex digits.
  ghost predicate IsPlatform(w: World) {
    PlainDomainsKept(w.unicode) && forall b: Blob :: IsHex64(w.sha(b))
  }

  // A registry rewritten by an acknowledgement passes the schema exactly when
  // the review note is not blank.  The command line asks only for a non-empty
  // one, so a note of spaces leaves a registry that no later command loads.
  lemma AcknowledgedLoadsIff(w: World, registry: RegistryFile, drift: Drift, data: Option<Blob>)
    requires IsPlatform(w) && !IsBlank(drift.today)
    requires AcknowledgeCode(w, registry, drift, data) == OK
    ensures Loads(w.unicode, NewRegistry(w, registry, drift, data)) <==> !IsBlank(drift.note)
  {
    var sha, reviewer := w.sha(data.value), Normalize(w.unicode, drift.reviewer).value;
    NormalizeIdempotent(w.unicode, drift.reviewer);
    var own := Find(registry.entries, drift.slug).value;
    var k :| 0 <= k < |registry.entries| && registry.entries[k] == own;
    RepinnedLoadsIff(w, registry.entries, k, drift, sha, reviewer);
  }

  // The command takes a note of one no-break space, for any entry whose source
  // has drifted, and writes a registry that does not load.
  lemma BlankNoteSlips(w: World, registry: RegistryFile, d: Entry, b: Blob)
    requires IsPlatform(w) && Loads(w.unicode, registry) && d in registry.entries && w.sha(b) != d.sha256
    ensures var drift := Drift(d.slug, d.reviewer, "\U{A0}", "2026-01-01");
            && AcknowledgeCode(w, registry, drift, Some(b)) == OK
            && !Loads(w.unicode, NewRegistry(w, registry, drift, Some(b)))
  {
    var drift := Drift(d.slug, d.reviewer, "\U{A0}", "2026-01-01");
    Acknowledged(w, registry, d, drift, b);
    assert IsBlank(drift.note) && !IsSpace(drift.today[0]);
    AcknowledgedLoadsIff(w, registry, drift, Some(b));
  }

  lemma RepinnedLoadsIff(w: World, entries: seq<Entry>, k: nat, drift: Drift, sha: string, reviewer: string)
    requires AllAccepted(w.unicode, entries) && DistinctSlugs(entries) && k < |entries| && entries[k].slug == drift.slug
    requires IsHex64(sha) && !IsBlank(drift.today) && Normalize(w.unicode, reviewer) == Some(reviewer)
    ensures var after := Repinned(entries, drift, sha, reviewer);
            DistinctSlugs(after) && (AllAccepted(w.unicode, after) <==> !IsBlank(drift.note))
  {
    var after := Repinned(entries, drift, sha, reviewer);
    forall i | 0 <= i < |entries|
      ensures AcceptedAt(w.unicode, after, i) <==> entries[i].slug != drift.slug || !IsBlank(drift.note)
    {
      assert AcceptedAt(w.unicode, entries, i);
      RepinnedAccepted(w, entries[i], drift, sha, reviewer);
    }
  }

  lemma RepinnedAccepted(w: World, e: Entry, drift: Drift, sha: string, reviewer: string)
    requires EntryAccepted(w.unicode, e) && IsHex64(sha) && !IsBlank(drift.today)
    requires Normalize(w.unicode, reviewer) == Some(reviewer)
    ensures EntryAccepted(w.unicode, RepinnedEntry(e, drift, sha, reviewer)) <==> e.slug != drift.slug || !IsBlank(drift.note)
  {
  }

  // ----- Crashes -----

  // How far an acknowledgement got: the registry half written, the registry
  // written, the cache file half written, everything written.
  datatype Progress = InRegistry | BetweenWrites | InCache(torn: Blob) | Complete

  // `own` is the entry re-pinned, `registry` its new registry, `data` the fetched bytes.
  function Crashed(w: World, index: Index, registry: RegistryFile, own: Entry, data: Blob, p: Progress): Index {
    match p
    case InRegistry => index.(registry := Broken)
    case BetweenWrites => index.(registry := registry)
    case InCache(torn) => Index(registry, index.cache[CachePath(w, own) := torn])
    case Complete => Index(registry, index.cache[CachePath(w, own) := data])
  }

  function CrashVerdict(w: World, cache: map<File, Blob>, own: Entry, data: Blob, p: Progress): nat {
    match p
    case InRegistry => SCHEMA_ERROR
    case BetweenWrites => if CachePath(w, own) in cache then HASH_MISMATCH else CACHE_MISSING
    case InCache(torn) => if w.sha(torn) == w.sha(data) then OK else HASH_MISMATCH
    case Complete => OK
  }

  // A crash is reported, never accepted: a half-written registry does not load;
  // between the two writes the old file no longer matches the new pin, or there
  // is none; a half-written file is accepted only if it hashes to the new pin.
  // All other entries that name another file verify as before.
  lemma CrashReported(w: World, index: Index, drift: Drift, data: Option<Blob>, p: Progress, own: Entry, reviewer: string, e: Entry)
    requires AcknowledgeCode(w, index.registry, drift, data) == OK && PinsMatch(w, index)
    requires Find(index.registry.entries, drift.slug) == Some(own) && Normalize(w.unicode, drift.reviewer) == Some(reviewer)
    requires e in index.registry.entries && (e.slug == drift.slug || CachePath(w, e) != CachePath(w, own))
    ensures var pinned := RepinnedEntry(e, drift, w.sha(data.value), reviewer);
            var now := Crashed(w, index, NewRegistry(w, index.registry, drift, data), own, data.value, p);
            && (p == Complete ==> now == Apply(w, index, Acknowledge(drift, data)))
            && (p == InRegistry ==> !Loads(w.unicode, now.registry))
            && (p != InRegistry ==>
                  && pinned in now.registry.entries
                  && VerifyCache(w, now.cache, pinned) ==
                     if e.slug == drift.slug then CrashVerdict(w, index.cache, own, data.value, p)
                     else VerifyCache(w, index.cache, e))
  {
    CleanlyAcknowledged(w, index.registry, drift, data, own, reviewer);
    if p != InRegistry {
      assert EntryMatches(w, index.cache, e);
      CrashVerifies(w, index, own, drift, data.value, reviewer, p, e);
    }
  }

  lemma CleanlyAcknowledged(w: World, registry: RegistryFile, drift: Drift, data: Option<Blob>, own: Entry, reviewer: string)
    requires AcknowledgeCode(w, registry, drift, data) == OK
    requires Find(registry.entries, drift.slug) == Some(own) && Normalize(w.unicode, drift.reviewer) == Some(reviewer)
    ensures SlugsIdentify(registry.entries) && w.sha(data.value) != own.sha256
    ensures NewRegistry(w, registry, drift, data) == Parsed(Repinned(registry.entries, drift, w.sha(data.value), reviewer))
  {
    LoadedSlugs(w.unicode, registry);
  }

  lemma CrashVerifies(w: World, index: Index, own: Entry, drift: Drift, data: Blob, reviewer: string, p: Progress, e: Entry)
    requires index.registry.Parsed? && p != InRegistry
    requires SlugsIdentify(index.registry.entries)
    requires e.slug == drift.slug || CachePath(w, e) != CachePath(w, own)
    requires own in index.registry.entries && own.slug == drift.slug && w.sha(data) != own.sha256
    requires e in index.registry.entries && EntryMatches(w, index.cache, e)
    ensures var registry := Parsed(Repinned(index.registry.entries, drift, w.sha(data), reviewer));
            var now := Crashed(w, index, registry, own, data, p);
            var pinned := RepinnedEntry(e, drift, w.sha(data), reviewer);
            && pinned in registry.entries
            && VerifyCache(w, now.cache, pinned) ==
               if e.slug == drift.slug then CrashVerdict(w, index.cache, own, data, p)
               else VerifyCache(w, index.cache, e)
  {
    var registry := Parsed(Repinned(index.registry.entries, drift, w.sha(data), reviewer));
    var now := Crashed(w, index, registry, own, data, p);
    RepinnedVerifies(w, index.cache, now.cache, index.registry.entries, own, drift, w.sha(data), reviewer, e);
  }

  // An entry after its registry was re-pinned for `own` and only the file of
  // `own` may have changed.
  lemma RepinnedVerifies(w: World, before: map<File, Blob>, after: map<File, Blob>, entries: seq<Entry>, own: Entry, drift: Drift, sha: string, reviewer: string, e: Entry)
    requires SlugsIdentify(entries) && own in entries && own.slug == drift.slug && e in entries
    requires e.slug == drift.slug || CachePath(w, e) != CachePath(w, own)
    requires after == before || (CachePath(w, own) in after && after == before[CachePath(w, own) := after[CachePath(w, own)]])
    ensures RepinnedEntry(e, drift, sha, reviewer) in Repinned(entries, drift, sha, reviewer)
    ensures var pinned := RepinnedEntry(e, drift, sha, reviewer);
            && CachePath(w, pinned) == CachePath(w, e)
            && VerifyCache(w, after, pinned) ==
               if e.slug != drift.slug then VerifyCache(w, before, e)
               else if CachePath(w, e) !in after then CACHE_MISSING
               else if w.sha(after[CachePath(w, e)]) != sha then HASH_MISMATCH
               else OK
  {
    var i :| 0 <= i < |entries| && entries[i] == e;
    assert Repinned(entries, drift, sha, reviewer)[i] == RepinnedEntry(e, drift, sha, reviewer);
  }
}
