/** The anchors scripts/check_references.py and scripts/migrate_intel_sdm_refs.py
    give to the headings of a document: a heading's slug, numbered from its
    second occurrence on. */
module HeadingAnchors {
  import opened Text
  import opened Decimal

  datatype Heading = Heading(slug: string, title: string)

  function Occurrences(headings: seq<Heading>, n: nat, slug: string): nat
    requires n <= |headings|
  {
    if n == 0 then 0
    else Occurrences(headings, n - 1, slug) + (if headings[n - 1].slug == slug then 1 else 0)
  }

  function Numbered(slug: string, k: nat): string {
    slug + ['-'] + Digits(k)
  }

  function AnchorAt(headings: seq<Heading>, i: nat): string
    requires i < |headings|
  {
    var k := Occurrences(headings, i, headings[i].slug);
    if k == 0 then headings[i].slug else Numbered(headings[i].slug, k)
  }

  function Anchors(headings: seq<Heading>): (anchors: seq<string>)
    ensures |anchors| == |headings| && forall i | 0 <= i < |anchors| :: anchors[i] == AnchorAt(headings, i)
  {
    seq(|headings|, i requires 0 <= i < |headings| => AnchorAt(headings, i))
  }

  // Heading k is the last of the first n to be given its anchor.
  predicate IsLast(anchors: seq<string>, k: nat, n: nat) {
    k < n <= |anchors| && forall j | k < j < n :: anchors[j] != anchors[k]
  }

  predicate IsGiven(anchors: seq<string>, n: nat, a: string) {
    n <= |anchors| && exists k | 0 <= k < n :: anchors[k] == a
  }

  // If heading k is the last to be given its anchor, the anchor stands for it.
  predicate StandsForLast(headings: seq<Heading>, anchors: seq<string>, n: nat, sections: map<string, string>, k: nat) {
    IsLast(anchors, k, n) ==> k < |headings| && anchors[k] in sections && sections[anchors[k]] == headings[k].title
  }

  // Each anchor given stands for the last heading that was given it.
  ghost predicate IsSections(headings: seq<Heading>, anchors: seq<string>, n: nat, sections: map<string, string>) {
    && (forall a {:trigger IsGiven(anchors, n, a)} :: a in sections ==> IsGiven(anchors, n, a))
    && (forall k {:trigger StandsForLast(headings, anchors, n, sections, k)} | 0 <= k < n ::
          StandsForLast(headings, anchors, n, sections, k))
  }

  method DeriveHeadings(headings: seq<Heading>) returns (sections: map<string, string>)
    ensures IsSections(headings, Anchors(headings), |headings|, sections)
  {
    ghost var anchors := Anchors(headings);
    sections := map[];
    var counts: map<string, nat> := map[];
    for i := 0 to |headings|
      invariant IsSections(headings, anchors, i, sections)
      invariant IsCount(headings, i, counts)
    {
      var slug := headings[i].slug;
      var anchor := slug;
      CountExtends(headings, i, counts);
      if slug in counts {
        counts := counts[slug := counts[slug] + 1];
        anchor := Numbered(slug, counts[slug]);
      } else {
        counts := counts[slug := 0];
      }
      SectionsExtend(headings, anchors, i, sections);
      sections := sections[anchor := headings[i].title];
    }
  }

  // The count of a slug is one less than how often it was met; a slug not met
  // has none.
  predicate CountsSlug(headings: seq<Heading>, n: nat, counts: map<string, nat>, slug: string) {
    n <= |headings| && Occurrences(headings, n, slug) == if slug in counts then counts[slug] + 1 else 0
  }

  ghost predicate IsCount(headings: seq<Heading>, n: nat, counts: map<string, nat>) {
    forall slug {:trigger CountsSlug(headings, n, counts, slug)} :: CountsSlug(headings, n, counts, slug)
  }

  lemma {:induction false} CountedPresent(headings: seq<Heading>, n: nat, slug: string)
    requires n <= |headings| && Occurrences(headings, n, slug) > 0
    ensures exists i | 0 <= i < n :: headings[i].slug == slug
  {
    if headings[n - 1].slug != slug {
      CountedPresent(headings, n - 1, slug);
    }
  }

  lemma CountExtends(headings: seq<Heading>, i: nat, counts: map<string, nat>)
    requires i < |headings| && IsCount(headings, i, counts)
    ensures CountsSlug(headings, i, counts, headings[i].slug)
    ensures IsCount(headings, i + 1, counts[headings[i].slug := Occurrences(headings, i, headings[i].slug)])
  {
    var after := counts[headings[i].slug := Occurrences(headings, i, headings[i].slug)];
    assert CountsSlug(headings, i, counts, headings[i].slug);
    forall slug {:trigger CountsSlug(headings, i + 1, after, slug)} ensures CountsSlug(headings, i + 1, after, slug) {
      assert CountsSlug(headings, i, counts, slug);
    }
  }

  lemma SectionsExtend(headings: seq<Heading>, anchors: seq<string>, i: nat, sections: map<string, string>)
    requires i < |headings| == |anchors| && IsSections(headings, anchors, i, sections)
    ensures IsSections(headings, anchors, i + 1, sections[anchors[i] := headings[i].title])
  {
    var after := sections[anchors[i] := headings[i].title];
    forall a {:trigger IsGiven(anchors, i + 1, a)} ensures a in after ==> IsGiven(anchors, i + 1, a) {
      assert a in sections ==> IsGiven(anchors, i, a);
    }
    forall k {:trigger StandsForLast(headings, anchors, i + 1, after, k)} | 0 <= k < i + 1
      ensures StandsForLast(headings, anchors, i + 1, after, k)
    {
      if k < i && IsLast(anchors, k, i + 1) {
        assert StandsForLast(headings, anchors, i, sections, k);
      }
    }
  }

  // ----- When anchors are unique -----

  predicate AnchorsUnique(headings: seq<Heading>) {
    forall i, j | 0 <= i < j < |headings| :: AnchorAt(headings, i) != AnchorAt(headings, j)
  }

  // Heading i repeats its slug for the k-th time, and heading j has that slug
  // with -k for its own.
  predicate Clash(headings: seq<Heading>, i: nat, j: nat) {
    i < |headings| && j < |headings| &&
    var k := Occurrences(headings, i, headings[i].slug);
    k > 0 && headings[j].slug == Numbered(headings[i].slug, k)
  }

  lemma {:induction false} OccurrencesGrow(headings: seq<Heading>, i: nat, j: nat)
    requires i < j <= |headings|
    ensures Occurrences(headings, i, headings[i].slug) < Occurrences(headings, j, headings[i].slug)
  {
    if j > i + 1 {
      OccurrencesGrow(headings, i, j - 1);
    }
  }

  lemma {:induction false} FirstOccurrence(headings: seq<Heading>, j: nat) returns (first: nat)
    requires j < |headings|
    ensures first <= j && headings[first].slug == headings[j].slug
    ensures Occurrences(headings, first, headings[j].slug) == 0
  {
    if Occurrences(headings, j, headings[j].slug) == 0 {
      first := j;
    } else {
      CountedPresent(headings, j, headings[j].slug);
      var i :| 0 <= i < j && headings[i].slug == headings[j].slug;
      first := FirstOccurrence(headings, i);
    }
  }

  function AfterDash(x: string): string {
    if x == "" || x[|x| - 1] == '-' then "" else AfterDash(x[..|x| - 1]) + [x[|x| - 1]]
  }

  lemma {:induction false} AfterDashOf(s: string, digits: string)
    requires Without(digits, '-')
    ensures AfterDash(s + ['-'] + digits) == digits
    decreases |digits|
  {
    var x := s + ['-'] + digits;
    if digits != "" {
      var n := |digits| - 1;
      assert x[..|x| - 1] == s + ['-'] + digits[..n];
      AfterDashOf(s, digits[..n]);
      assert digits[..n] + [digits[n]] == digits;
    }
  }

  // The number after the last dash and what stands before it are determined.
  lemma NumberedInjective(s: string, k: nat, t: string, m: nat)
    requires Numbered(s, k) == Numbered(t, m)
    ensures s == t && k == m
  {
    DigitsReadBack(k);
    DigitsReadBack(m);
    AfterDashOf(s, Digits(k));
    AfterDashOf(t, Digits(m));
    var x := Numbered(s, k);
    assert x[..|x| - |Digits(k)| - 1] == s && x[..|x| - |Digits(m)| - 1] == t;
  }

  lemma ClashCollides(headings: seq<Heading>, i: nat, j: nat)
    requires i < |headings| && j < |headings| && Clash(headings, i, j)
    ensures !AnchorsUnique(headings)
  {
    var first := FirstOccurrence(headings, j);
    assert AnchorAt(headings, first) == AnchorAt(headings, i);
    assert |headings[first].slug| > |headings[i].slug|;
    assert first < i || i < first;
  }

  // Anchors are unique exactly when no numbered repetition of one heading is the
  // slug of another.
  lemma UniqueIffNoClash(headings: seq<Heading>)
    ensures AnchorsUnique(headings) <==> forall i, j | 0 <= i < |headings| && 0 <= j < |headings| :: !Clash(headings, i, j)
  {
    forall i, j | 0 <= i < |headings| && 0 <= j < |headings| ensures Clash(headings, i, j) ==> !AnchorsUnique(headings) {
      if Clash(headings, i, j) {
        ClashCollides(headings, i, j);
      }
    }
    if !AnchorsUnique(headings) {
      var i, j :| 0 <= i < j < |headings| && AnchorAt(headings, i) == AnchorAt(headings, j);
      SameAnchorClashes(headings, i, j);
    }
  }

  lemma SameAnchorClashes(headings: seq<Heading>, i: nat, j: nat)
    requires i < j < |headings| && AnchorAt(headings, i) == AnchorAt(headings, j)
    ensures Clash(headings, i, j) || Clash(headings, j, i)
  {
    var k, m := Occurrences(headings, i, headings[i].slug), Occurrences(headings, j, headings[j].slug);
    OccurrencesGrow(headings, i, j);
    if k > 0 && m > 0 {
      NumberedInjective(headings[i].slug, k, headings[j].slug, m);
    }
  }

  // "Foo", "Foo", "Foo 1": the second and the third share an anchor.
  lemma AnchorsCollide(headings: seq<Heading>)
    requires |headings| == 3
    requires headings[0].slug == headings[1].slug == "foo" && headings[2].slug == "foo-1"
    ensures AnchorAt(headings, 1) == AnchorAt(headings, 2) && !AnchorsUnique(headings)
  {
    assert Digits(1) == "1";
    assert Occurrences(headings, 1, "foo") == 1;
    assert "foo" + ['-'] + "1" == "foo-1";
    assert |headings[0].slug| == 3 && |headings[2].slug| == 5;
    NotMet(headings, 2, headings[2].slug);
  }

  lemma {:induction false} NotMet(headings: seq<Heading>, n: nat, slug: string)
    requires n <= |headings| && forall i | 0 <= i < n :: headings[i].slug != slug
    ensures Occurrences(headings, n, slug) == 0
  {
    if n > 0 {
      NotMet(headings, n - 1, slug);
    }
  }
}
