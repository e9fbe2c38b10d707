/** The commands of scripts/check_references.py on the registry and the cache. */
module ReferenceStore {
  import opened Options
  import opened Text
  import opened Reviewers
  import opened CachePaths
  import opened References

  datatype Citation = Citation(slug: string, anchor: string)

  // What an anchor checker answers for the cached bytes of an entry: OK, or the
  // code of its failure.
  type Checker = (string, Entry, Blob) -> nat

  // The failure of one citation, or OK.
  function CitationCode(w: World, entries: seq<Entry>, cache: map<File, Blob>, check: Checker, c: Citation): nat {
    match Find(entries, c.slug)
    case None => UNREGISTERED_SLUG
    case Some(e) =>
      if VerifyCache(w, cache, e) != OK then VerifyCache(w, cache, e)
      else check(c.anchor, e, cache[CachePath(w, e)])
  }

  // A citation answers with this code: 2 when its slug is registered nowhere, and
  // otherwise, for its entry, 3 when the cache file is absent, 4 when its bytes do
  // not hash to the pin, and else whatever the anchor checker says.
  predicate Answers(w: World, entries: seq<Entry>, cache: map<File, Blob>, check: Checker, c: Citation, code: nat) {
    || (code == 2 && forall e | e in entries :: e.slug != c.slug)
    || exists e | e in entries :: e.slug == c.slug && AnswersFor(w, e, cache, check, c.anchor, code)
  }

  predicate AnswersFor(w: World, e: Entry, cache: map<File, Blob>, check: Checker, anchor: string, code: nat) {
    var path := CachePath(w, e);
    && (path !in cache ==> code == 3)
    && (path in cache && w.sha(cache[path]) != e.sha256 ==> code == 4)
    && (path in cache && w.sha(cache[path]) == e.sha256 ==> code == check(anchor, e, cache[path]))
  }

  // Its slug is that of an entry whose cache file is there, hashes to its pin and
  // passes the checker.
  predicate Resolves(w: World, entries: seq<Entry>, cache: map<File, Blob>, check: Checker, c: Citation) {
    exists e | e in entries ::
      && e.slug == c.slug && CachePath(w, e) in cache
      && w.sha(cache[CachePath(w, e)]) == e.sha256
      && check(c.anchor, e, cache[CachePath(w, e)]) == 0
  }

  lemma CitationCodeMeans(w: World, entries: seq<Entry>, cache: map<File, Blob>, check: Checker, c: Citation, code: nat)
    requires SlugsIdentify(entries)
    ensures CitationCode(w, entries, cache, check, c) == code <==> Answers(w, entries, cache, check, c, code)
    ensures CitationCode(w, entries, cache, check, c) == 0 <==> Resolves(w, entries, cache, check, c)
  {
    var found := Find(entries, c.slug);
    if found.Some? {
      assert forall e | e in entries && e.slug == c.slug :: e == found.value;
      assert AnswersFor(w, found.value, cache, check, c.anchor, CitationCode(w, entries, cache, check, c));
    }
  }

  predicate IsPrimary(codes: set<nat>, code: nat) {
    code in codes && forall c | c in codes :: code <= c
  }

  method Smallest(codes: set<nat>) returns (least: nat)
    requires codes != {}
    ensures IsPrimary(codes, least)
  {
    least :| least in codes;
    var rest := codes - {least};
    while rest != {}
      invariant least in codes && rest <= codes
      invariant forall c | c in codes && c !in rest :: least <= c
      decreases |rest|
    {
      var c :| c in rest;
      least, rest := if c < least then c else least, rest - {c};
    }
  }

  // Slugs whose cache file is known to match.
  predicate VerifiedFiles(w: World, entries: seq<Entry>, cache: map<File, Blob>, verified: set<string>) {
    forall slug | slug in verified :: FileMatches(w, entries, cache, slug)
  }

  predicate FileMatches(w: World, entries: seq<Entry>, cache: map<File, Blob>, slug: string) {
    Find(entries, slug).Some? && VerifyCache(w, cache, Find(entries, slug).value) == OK
  }

  predicate Fails(w: World, entries: seq<Entry>, cache: map<File, Blob>, check: Checker, c: Citation, code: nat) {
    code != OK && CitationCode(w, entries, cache, check, c) == code
  }

  // The codes collected so far are exactly those some citation fails with.
  ghost predicate FailuresOf(w: World, entries: seq<Entry>, cache: map<File, Blob>, check: Checker, citations: seq<Citation>, codes: set<nat>) {
    forall f: nat :: f in codes <==> exists c | c in citations :: Fails(w, entries, cache, check, c, f)
  }

  // 0 exactly when every citation resolves, else the smallest code one answers with.
  ghost predicate IsVerdict(w: World, entries: seq<Entry>, cache: map<File, Blob>, check: Checker, citations: seq<Citation>, code: nat) {
    && (code == 0 <==> forall c | c in citations :: Resolves(w, entries, cache, check, c))
    && (code != 0 ==> exists c | c in citations :: Answers(w, entries, cache, check, c, code))
    && (forall c, f: nat | c in citations && f != 0 && Answers(w, entries, cache, check, c, f) :: code <= f)
  }

  lemma OneMoreCitation(w: World, entries: seq<Entry>, cache: map<File, Blob>, check: Checker, citations: seq<Citation>, i: nat, codes: set<nat>)
    requires i < |citations| && FailuresOf(w, entries, cache, check, citations[..i], codes)
    ensures var code := CitationCode(w, entries, cache, check, citations[i]);
            FailuresOf(w, entries, cache, check, citations[..i + 1], if code == OK then codes else codes + {code})
  {
    var code := CitationCode(w, entries, cache, check, citations[i]);
    assert citations[..i + 1] == citations[..i] + [citations[i]];
    var grown := if code == OK then codes else codes + {code};
    forall f: nat ensures f in grown <==> exists c | c in citations[..i + 1] :: Fails(w, entries, cache, check, c, f) {
      if f != OK && f == code {
        assert Fails(w, entries, cache, check, citations[i], f);
        assert citations[i] in citations[..i + 1];
      } else if f in codes {
        var c :| c in citations[..i] && Fails(w, entries, cache, check, c, f);
        assert c in citations[..i + 1];
      }
    }
  }

  lemma VerdictOfFailures(w: World, entries: seq<Entry>, cache: map<File, Blob>, check: Checker, citations: seq<Citation>, codes: set<nat>, code: nat)
    requires FailuresOf(w, entries, cache, check, citations, codes)
    requires if codes == {} then code == OK else IsPrimary(codes, code)
    requires SlugsIdentify(entries)
    ensures IsVerdict(w, entries, cache, check, citations, code)
  {
    forall c | c in citations
      ensures CitationCode(w, entries, cache, check, c) != OK ==> CitationCode(w, entries, cache, check, c) in codes
      ensures CitationCode(w, entries, cache, check, c) == 0 <==> Resolves(w, entries, cache, check, c)
      ensures forall f: nat :: Answers(w, entries, cache, check, c, f) <==> CitationCode(w, entries, cache, check, c) == f
    {
      assert CitationCode(w, entries, cache, check, c) != OK ==>
        Fails(w, entries, cache, check, c, CitationCode(w, entries, cache, check, c));
      forall f: nat ensures Answers(w, entries, cache, check, c, f) <==> CitationCode(w, entries, cache, check, c) == f {
        CitationCodeMeans(w, entries, cache, check, c, f);
      }
      CitationCodeMeans(w, entries, cache, check, c, 0);
    }
    assert code in codes ==> code != OK;
    if code != 0 {
      var c :| c in citations && Fails(w, entries, cache, check, c, code);
      assert Answers(w, entries, cache, check, c, code);
    }
  }

  ghost predicate IsCited(citations: seq<Citation>, slug: string) {
    exists c | c in citations :: c.slug == slug
  }

  // Every registered slug cited is hashed, no other one, and one whose file
  // matches only once.
  ghost predicate HashesOnce(w: World, entries: seq<Entry>, cache: map<File, Blob>, citations: seq<Citation>, hashed: seq<string>) {
    && (forall slug :: slug in hashed <==> IsCited(citations, slug) && Find(entries, slug).Some?)
    && RepeatsFail(w, entries, cache, hashed)
  }

  predicate RepeatsFail(w: World, entries: seq<Entry>, cache: map<File, Blob>, hashed: seq<string>) {
    forall i, j | 0 <= i < j < |hashed| && hashed[i] == hashed[j] :: !FileMatches(w, entries, cache, hashed[i])
  }

  lemma OneMoreCited(citations: seq<Citation>, i: nat, slug: string)
    requires i < |citations|
    ensures IsCited(citations[..i + 1], slug) <==> IsCited(citations[..i], slug) || citations[i].slug == slug
  {
    assert citations[..i + 1] == citations[..i] + [citations[i]];
    if IsCited(citations[..i], slug) {
      var c :| c in citations[..i] && c.slug == slug;
      assert c in citations[..i + 1];
    }
    assert citations[i] in citations[..i + 1];
  }

  lemma OneMoreHash(w: World, entries: seq<Entry>, cache: map<File, Blob>, citations: seq<Citation>, i: nat, hashed: seq<string>, again: bool)
    requires i < |citations| && HashesOnce(w, entries, cache, citations[..i], hashed)
    requires again ==> Find(entries, citations[i].slug).Some?
    requires again && citations[i].slug in hashed ==> !FileMatches(w, entries, cache, citations[i].slug)
    requires !again ==> citations[i].slug in hashed || Find(entries, citations[i].slug).None?
    ensures HashesOnce(w, entries, cache, citations[..i + 1], if again then hashed + [citations[i].slug] else hashed)
  {
    var longer := if again then hashed + [citations[i].slug] else hashed;
    forall slug ensures slug in longer <==> IsCited(citations[..i + 1], slug) && Find(entries, slug).Some? {
      OneMoreCited(citations, i, slug);
    }
  }

  // The map holds exactly the slugs of the first n entries, each with its entry.
  ghost predicate IsBySlug(entries: seq<Entry>, n: nat, bySlug: map<string, Entry>) {
    && n <= |entries|
    && (forall slug :: slug in bySlug <==> exists j | 0 <= j < n :: entries[j].slug == slug)
    && (forall slug | slug in bySlug :: bySlug[slug] in entries && bySlug[slug].slug == slug)
  }

  predicate AcceptedSoFar(w: World, entries: seq<Entry>, n: nat) {
    && n <= |entries|
    && (forall j | 0 <= j < n :: AcceptedAt(w.unicode, entries, j))
    && (forall j, k | 0 <= j < k < n :: entries[j].slug != entries[k].slug)
  }

  lemma OneMoreEntry(w: World, entries: seq<Entry>, i: nat, found: map<string, Entry>)
    requires i < |entries| && IsBySlug(entries, i, found) && AcceptedSoFar(w, entries, i)
    ensures entries[i].slug in found || !EntryAccepted(w.unicode, entries[i]) ==> !Loads(w.unicode, Parsed(entries))
    ensures entries[i].slug !in found ==> IsBySlug(entries, i + 1, found[entries[i].slug := entries[i]])
    ensures entries[i].slug !in found && EntryAccepted(w.unicode, entries[i]) ==> AcceptedSoFar(w, entries, i + 1)
  {
    if entries[i].slug in found {
      var j :| 0 <= j < i && entries[j].slug == entries[i].slug;
    } else {
      BySlugExtends(entries, i, found);
    }
    if !EntryAccepted(w.unicode, entries[i]) {
      assert !AcceptedAt(w.unicode, entries, i);
    }
  }

  lemma BySlugExtends(entries: seq<Entry>, i: nat, found: map<string, Entry>)
    requires i < |entries| && IsBySlug(entries, i, found) && entries[i].slug !in found
    ensures IsBySlug(entries, i + 1, found[entries[i].slug := entries[i]])
  {
    var longer := found[entries[i].slug := entries[i]];
    forall slug ensures slug in longer <==> exists j | 0 <= j < i + 1 :: entries[j].slug == slug {
      if slug in found {
        var j :| 0 <= j < i && entries[j].slug == slug;
      }
      assert slug == entries[i].slug ==> slug in longer;
    }
  }

  class ReferenceIndex {
    var registry: RegistryFile
    var cache: map<File, Blob>

    constructor (registry: RegistryFile)
      ensures this.registry == registry && cache == map[]
    {
      this.registry := registry;
      cache := map[];
    }

    function Contents(): Index
      reads this
    {
      Index(registry, cache)
    }

    // The registry by slug, if every entry passes the schema and no slug repeats.
    method LoadRegistry(w: World) returns (bySlug: Option<map<string, Entry>>)
      ensures bySlug.Some? <==> Loads(w.unicode, registry)
      ensures bySlug.Some? ==> registry.Parsed? && IsBySlug(registry.entries, |registry.entries|, bySlug.value)
    {
      if registry.Broken? {
        return None;
      }
      var found: map<string, Entry> := map[];
      var entries := registry.entries;
      for i := 0 to |entries|
        invariant IsBySlug(entries, i, found) && AcceptedSoFar(w, entries, i)
      {
        var accepted := CheckEntry(w, entries[i]);
        OneMoreEntry(w, entries, i, found);
        if !accepted || entries[i].slug in found {
          return None;
        }
        found := found[entries[i].slug := entries[i]];
      }
      return Some(found);
    }

    // The checks of one entry, in the order they are made.
    method CheckEntry(w: World, e: Entry) returns (accepted: bool)
      ensures accepted <==> EntryAccepted(w.unicode, e)
    {
      // The other required fields are not blank when the checks below accept them.
      var required := [e.slug, e.corpus, e.fixed.title, e.url, e.fetchedDate, e.fixed.edition, e.lastReviewed, e.reviewNote];
      for i := 0 to |required|
        invariant forall j | 0 <= j < i :: !IsBlank(required[j])
      {
        if IsBlank(required[i]) {
          assert required[i] in {e.slug, e.corpus, e.fixed.title, e.url, e.fetchedDate, e.fixed.edition, e.lastReviewed, e.reviewNote};
          return false;
        }
      }
      assert !IsBlank(required[0]) && !IsBlank(required[1]) && !IsBlank(required[2]) && !IsBlank(required[3]);
      assert !IsBlank(required[4]) && !IsBlank(required[5]) && !IsBlank(required[6]) && !IsBlank(required[7]);
      if Normalize(w.unicode, e.reviewer) != Some(e.reviewer) {
        return false;
      }
      if e.mediaType !in {"markdown", "html", "pdf", "json", "plain-text", "c-header", "c-source"} {
        return false;
      }
      var fixed := CheckFixed(e.fixed);
      return fixed && IsHex64(e.sha256);
    }

    method CheckFixed(f: Fixed) returns (accepted: bool)
      ensures accepted && !IsBlank(f.title) && !IsBlank(f.edition) <==> FixedAccepted(f)
    {
      if f.anchorMode !in {"heading", "pdf-locator", "json-pointer", "rfc-section", "c-symbol"} {
        return false;
      }
      var expected := ExpectedDistribution(f.license);
      if expected.None? {
        return false;
      }
      if f.distribution != expected.value && f.distribution != "unclear" {
        return false;
      }
      if f.anchorMode == "pdf-locator" && (f.pageCount.None? || f.pageCount.value <= 0) {
        return false;
      }
      return true;
    }

    // A file that verified once is not hashed again for later citations.
    method CheckCitation(w: World, check: Checker, verified: set<string>, c: Citation)
      returns (code: nat, verified': set<string>, hashed: bool)
      requires registry.Parsed? && VerifiedFiles(w, registry.entries, cache, verified)
      ensures code == CitationCode(w, registry.entries, cache, check, c)
      ensures VerifiedFiles(w, registry.entries, cache, verified')
      ensures hashed <==> c.slug !in verified && Find(registry.entries, c.slug).Some?
      ensures verified' == if hashed && FileMatches(w, registry.entries, cache, c.slug) then verified + {c.slug} else verified
    {
      verified', hashed := verified, false;
      var found := Find(registry.entries, c.slug);
      if found.None? {
        return UNREGISTERED_SLUG, verified', hashed;
      }
      if c.slug !in verified {
        hashed := true;
        var integrity := VerifyCache(w, cache, found.value);
        if integrity != OK {
          return integrity, verified', hashed;
        }
        verified' := verified + {c.slug};
      }
      code := check(c.anchor, found.value, cache[CachePath(w, found.value)]);
    }

    // The exit code is 0 exactly when every citation passes, and else the
    // smallest code any citation fails with.  `hashed` logs the slugs whose file
    // was looked up and hashed: every cited registered one, one that verifies once.
    method RunOffline(w: World, citations: seq<Citation>, check: Checker) returns (code: nat, hashed: seq<string>)
      ensures !Loads(w.unicode, registry) ==> code == 1 && hashed == []
      ensures Loads(w.unicode, registry) ==> IsVerdict(w, registry.entries, cache, check, citations, code)
      ensures Loads(w.unicode, registry) ==> HashesOnce(w, registry.entries, cache, citations, hashed)
    {
      hashed := [];
      var loaded := LoadRegistry(w);
      if loaded.None? {
        return SCHEMA_ERROR, hashed;
      }
      var failures: set<nat> := {};
      var verified: set<string> := {};
      for i := 0 to |citations|
        invariant FailuresOf(w, registry.entries, cache, check, citations[..i], failures)
        invariant VerifiedFiles(w, registry.entries, cache, verified)
        invariant HashesOnce(w, registry.entries, cache, citations[..i], hashed)
        invariant forall slug | slug in verified :: slug in hashed
        invariant forall slug | slug in hashed && FileMatches(w, registry.entries, cache, slug) :: slug in verified
      {
        var outcome, again;
        outcome, verified, again := CheckCitation(w, check, verified, citations[i]);
        OneMoreCitation(w, registry.entries, cache, check, citations, i, failures);
        OneMoreHash(w, registry.entries, cache, citations, i, hashed, again);
        if again {
          hashed := hashed + [citations[i].slug];
        }
        if outcome != OK {
          failures := failures + {outcome};
        }
      }
      assert citations[..|citations|] == citations;
      code := OK;
      if failures != {} {
        code := Smallest(failures);
      }
      LoadedSlugs(w.unicode, registry);
      VerdictOfFailures(w, registry.entries, cache, check, citations, failures, code);
    }

    // Bytes that do not match the pin leave the cache alone.
    method RefreshTarget(w: World, e: Entry, data: Option<Blob>, worst: nat) returns (code: nat)
      modifies `cache
      ensures cache == if FetchCode(w, e, data) == OK then old(cache)[CachePath(w, e) := data.value] else old(cache)
      ensures code == if FetchCode(w, e, data) > worst then FetchCode(w, e, data) else worst
    {
      code := worst;
      if data.None? {
        code := if FETCH_FAILED > code then FETCH_FAILED else code;
      } else if w.sha(data.value) == e.sha256 {
        cache := cache[CachePath(w, e) := data.value];
      } else {
        code := if DRIFT_DETECTED > code then DRIFT_DETECTED else code;
      }
    }

    method RefreshTargets(w: World, targets: seq<Entry>, fetch: string -> Option<Blob>) returns (code: nat)
      modifies `cache
      ensures cache == RefreshedCache(w, old(cache), targets, |targets|, fetch)
      ensures code == WorstCode(w, targets, |targets|, fetch)
    {
      code := OK;
      for i := 0 to |targets|
        invariant cache == RefreshedCache(w, old(cache), targets, i, fetch)
        invariant code == WorstCode(w, targets, i, fetch)
      {
        code := RefreshTarget(w, targets[i], fetch(targets[i].slug), code);
      }
    }

    method RunRefresh(w: World, selection: Selection, fetch: string -> Option<Blob>) returns (code: nat)
      modifies `cache
      ensures Contents() == Apply(w, old(Contents()), Refresh(selection, fetch))
      ensures code == RefreshCode(w, registry, selection, fetch)
    {
      var loaded := LoadRegistry(w);
      if loaded.None? {
        return SCHEMA_ERROR;
      }
      var targets := Targets(registry.entries, selection);
      if selection.BySlug? && targets == [] {
        return UNREGISTERED_SLUG;
      }
      if selection.Nothing? {
        return BAD_ARGS;
      }
      code := RefreshTargets(w, targets, fetch);
    }

    // Writes the registry first and the cache file second.  The address is
    // normalised twice on the way, which is harmless because it is idempotent.
    method AcknowledgeDrift(w: World, drift: Drift, data: Option<Blob>) returns (code: nat)
      requires PlainDomainsKept(w.unicode)
      modifies this
      ensures Contents() == Apply(w, old(Contents()), Acknowledge(drift, data))
      ensures code == AcknowledgeCode(w, old(registry), drift, data)
    {
      if drift.reviewer == "" || drift.note == "" || drift.slug == "" {
        return BAD_ARGS;
      }
      var reviewer := Normalize(w.unicode, drift.reviewer);
      if reviewer.None? {
        return BAD_ARGS;
      }
      var loaded := LoadRegistry(w);
      if loaded.None? {
        return SCHEMA_ERROR;
      }
      var found := Find(registry.entries, drift.slug);
      if found.None? {
        return UNREGISTERED_SLUG;
      }
      if data.None? {
        return FETCH_FAILED;
      }
      if w.sha(data.value) == found.value.sha256 {
        return BAD_ARGS;
      }
      NormalizeIdempotent(w.unicode, drift.reviewer);
      var raw := SetRepinMetadata(w, registry.entries, drift, w.sha(data.value), reviewer.value);
      registry := Parsed(raw);
      cache := cache[CachePath(w, found.value) := data.value];
      return OK;
    }
  }

  // The address must already be canonical here, or re-pinning would fail.
  method SetRepinMetadata(w: World, raw: seq<Entry>, drift: Drift, sha256: string, reviewer: string)
    returns (updated: seq<Entry>)
    requires Normalize(w.unicode, reviewer) == Some(reviewer)
    ensures updated == Repinned(raw, drift, sha256, reviewer)
  {
    var normalized := Normalize(w.unicode, reviewer);
    updated := raw;
    for i := 0 to |raw|
      invariant |updated| == |raw|
      invariant forall j | 0 <= j < i :: updated[j] == RepinnedEntry(raw[j], drift, sha256, reviewer)
      invariant forall j | i <= j < |raw| :: updated[j] == raw[j]
    {
      if updated[i].slug == drift.slug {
        var entry := updated[i].(sha256 := sha256, fetchedDate := drift.today, lastReviewed := drift.today,
          reviewer := normalized.value, reviewNote := drift.note);
        updated := updated[i := entry];
      }
    }
  }
}
