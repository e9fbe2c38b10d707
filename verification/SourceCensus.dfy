/** The census of scripts/check_no_ignored_lean_sources.py: the Lean files on
    disk against the index and the committed tree. */
module SourceCensus {
  import opened Options
  import opened Text
  import opened LineEndings
  import opened BlobFraming
  import opened IndexRecords

  // `disk` are the Lean files the walk of the worktree found; the findings of the
  // walk itself and of git's other reports come ready-made.
  datatype Findings = Findings(
    disk: map<string, Bytes>, boundaryErrors: set<string>,
    specialFlags: set<string>, differing: set<string>,
    ignored: set<string>, stale: set<string>)

  // What a process asked for these objects answers on its output.
  type CatFile = seq<string> -> Bytes

  // CannotDerive is exit code 2, Failed is 1, Passed is 0.
  datatype Verdict = Passed | Failed | CannotDerive

  // The requested paths: each committed path once.
  ghost predicate Lists(order: seq<string>, paths: set<string>) {
    && (forall p :: p in order <==> p in paths)
    && (forall i, j | 0 <= i < j < |order| :: order[i] != order[j])
  }

  function IdsOf(tree: Tree, order: seq<string>): (ids: seq<string>)
    requires forall p | p in order :: p in tree.ids
    ensures |ids| == |order| && forall i | 0 <= i < |order| :: ids[i] == tree.ids[order[i]]
  {
    seq(|order|, i requires 0 <= i < |order| => tree.ids[order[i]])
  }

  // The index agrees with the committed tree on every path, mode and object.
  predicate IndexIsCommitted(index: Index, tree: Tree) {
    index.modes == tree.modes && index.ids == tree.ids
  }

  // The file on disk is the blob up to line ends, and neither has a lone CR.
  predicate SameContent(disk: map<string, Bytes>, path: string, blob: Bytes) {
    path in disk ==> Normalized(disk[path]).Some? && Normalized(disk[path]) == Normalized(blob)
  }

  predicate ContentsMatch(disk: map<string, Bytes>, order: seq<string>, blobs: seq<Bytes>) {
    |order| == |blobs| && forall i | 0 <= i < |order| :: SameContent(disk, order[i], blobs[i])
  }

  lemma {:induction false} ReadsAll(stream: Bytes, ids: seq<string>)
    ensures ReadBlobs(stream, ids).Some? ==> |ReadBlobs(stream, ids).value| == |ids|
    decreases |ids|
  {
    if ids != [] && ReadFrame(stream, ids[0]).Some? {
      ReadsAll(ReadFrame(stream, ids[0]).value.1, ids[1..]);
    }
  }

  // A file on disk, or the blob for it, with a lone carriage return.
  predicate RefusesSome(disk: map<string, Bytes>, order: seq<string>, blobs: seq<Bytes>) {
    |order| == |blobs| && exists i | 0 <= i < |order| :: order[i] in disk && (Normalized(disk[order[i]]) == None || Normalized(blobs[i]) == None)
  }

  // The committed blobs as git answers for them, in the order asked.
  function BlobsFor(tree: Tree, order: seq<string>, catFile: CatFile): (blobs: Option<seq<Bytes>>)
    requires forall p | p in order :: p in tree.ids
    ensures blobs.Some? ==> |blobs.value| == |order|
  {
    var ids := IdsOf(tree, order);
    ReadsAll(catFile(ids), ids);
    ReadBlobs(catFile(ids), ids)
  }

  // Everything the census demands.
  predicate CensusHolds(f: Findings, index: Index, tree: Tree, order: seq<string>, blobs: seq<Bytes>) {
    && index.clean && f.boundaryErrors == {} && f.specialFlags == {} && f.differing == {}
    && f.disk.Keys == index.modes.Keys && IndexIsCommitted(index, tree)
    && ContentsMatch(f.disk, order, blobs)
    && f.ignored == {} && f.stale == {}
  }

  // The verdict, given the order in which the committed blobs were asked for.
  function VerdictOf(f: Findings, index: Index, tree: Option<Tree>, order: seq<string>, catFile: CatFile): Verdict
    requires tree.Some? ==> forall p | p in order :: p in tree.value.ids
  {
    if tree.None? then CannotDerive
    else match BlobsFor(tree.value, order, catFile)
      case None => CannotDerive
      case Some(blobs) =>
        if RefusesSome(f.disk, order, blobs) then CannotDerive
        else if CensusHolds(f, index, tree.value, order, blobs) then Passed
        else Failed
  }

  method Listing(paths: set<string>) returns (order: seq<string>)
    ensures Lists(order, paths)
  {
    order := [];
    var rest := paths;
    while rest != {}
      invariant rest <= paths
      invariant forall p :: p in order <==> p in paths && p !in rest
      invariant forall i, j | 0 <= i < j < |order| :: order[i] != order[j]
      decreases |rest|
    {
      var p :| p in rest;
      order := order + [p];
      rest := rest - {p};
    }
  }

  // None when some bytes have a lone carriage return.
  method CompareContents(disk: map<string, Bytes>, order: seq<string>, blobs: seq<Bytes>) returns (same: Option<bool>)
    requires |order| == |blobs|
    ensures same == None <==> RefusesSome(disk, order, blobs)
    ensures same.Some? ==> same.value == ContentsMatch(disk, order, blobs)
  {
    var equal := true;
    for i := 0 to |order|
      invariant equal <==> forall j | 0 <= j < i :: SameContent(disk, order[j], blobs[j])
      invariant forall j | 0 <= j < i && order[j] in disk :: Normalized(disk[order[j]]).Some? && Normalized(blobs[j]).Some?
    {
      if order[i] in disk {
        var worktree := Normalized(disk[order[i]]);
        var committed := Normalized(blobs[i]);
        if worktree.None? || committed.None? {
          return None;
        }
        if worktree != committed {
          equal := false;
        }
      }
      assert SameContent(disk, order[i], blobs[i]) <==>
        (order[i] in disk ==> Normalized(disk[order[i]]) == Normalized(blobs[i]));
    }
    return Some(equal);
  }

  // The findings on paths: what is in one of index and commit only, and what
  // both name with a different mode or object.
  method ComparePaths(index: Index, tree: Tree) returns (errors: set<string>)
    requires index.modes.Keys == index.ids.Keys && tree.modes.Keys == tree.ids.Keys
    ensures errors == {} <==> IndexIsCommitted(index, tree)
  {
    errors := (index.modes.Keys - tree.modes.Keys) + (tree.modes.Keys - index.modes.Keys);
    var both := index.modes.Keys * tree.modes.Keys;
    var differing := set p | p in both && (index.modes[p] != tree.modes[p] || index.ids[p] != tree.ids[p]);
    errors := errors + differing;
    if errors == {} {
      assert forall p | p in both :: p !in differing;
      assert index.modes.Keys == tree.modes.Keys;
    }
  }

  method CensusOf(f: Findings, index: Index, tree: Tree, catFile: CatFile) returns (verdict: Verdict, order: seq<string>)
    requires index.modes.Keys == index.ids.Keys && tree.modes.Keys == tree.ids.Keys
    ensures Lists(order, tree.ids.Keys)
    ensures verdict == VerdictOf(f, index, Some(tree), order, catFile)
  {
    var pathErrors := ComparePaths(index, tree);
    order := Listing(tree.ids.Keys);
    var ids := IdsOf(tree, order);
    var blobs := BatchBlobContents(catFile(ids), ids);
    assert blobs == BlobsFor(tree, order, catFile);
    if blobs.None? {
      return CannotDerive, order;
    }
    var same := CompareContents(f.disk, order, blobs.value);
    if same.None? {
      return CannotDerive, order;
    }
    var untracked := f.disk.Keys - index.modes.Keys;
    var absent := index.modes.Keys - f.disk.Keys;
    assert untracked == {} && absent == {} <==> f.disk.Keys == index.modes.Keys;
    if !index.clean || f.boundaryErrors != {} || pathErrors != {} || f.specialFlags != {} || f.differing != {}
      || !same.value || untracked != {} || absent != {}
    {
      return Failed, order;
    }
    if f.ignored != {} || f.stale != {} {
      return Failed, order;
    }
    return Passed, order;
  }

  method Census(f: Findings, indexOutput: string, treeOutput: string, catFile: CatFile)
    returns (verdict: Verdict, order: seq<string>)
    ensures Lists(order, if TreeIn(treeOutput).Some? then TreeIn(treeOutput).value.ids.Keys else {})
    ensures verdict == VerdictOf(f, IndexIn(indexOutput), TreeIn(treeOutput), order, catFile)
    ensures TreeIn(treeOutput) == None ==> verdict == CannotDerive
  {
    var index := ParseIndexStageOutput(indexOutput);
    var tree := CommittedLeanSources(treeOutput);
    if tree.None? {
      return CannotDerive, [];
    }
    IndexMeaning(RecordsIn(indexOutput), |RecordsIn(indexOutput)|);
    verdict, order := CensusOf(f, index, tree.value, catFile);
  }

  // ----- What a pass means -----

  // The objects asked for, where they exist.
  function Contents(objects: map<string, Bytes>, ids: seq<string>): (blobs: seq<Bytes>)
    requires forall id | id in ids :: id in objects
    ensures |blobs| == |ids| && forall i | 0 <= i < |ids| :: blobs[i] == objects[ids[i]]
  {
    seq(|ids|, i requires 0 <= i < |ids| => objects[ids[i]])
  }

  // git answers with the objects asked for, framed.
  predicate AnswersFrom(catFile: CatFile, objects: map<string, Bytes>, ids: seq<string>) {
    (forall id | id in ids :: IsName(id) && id in objects) && catFile(ids) == Response(ids, Contents(objects, ids))
  }

  // The file at p is the committed blob with each line end written as LF or CRLF.
  ghost predicate SameText(f: Findings, tree: Tree, objects: map<string, Bytes>, p: string) {
    && p in f.disk && p in tree.ids && tree.ids[p] in objects
    && exists lines :: IsVariant(f.disk[p], lines) && IsVariant(objects[tree.ids[p]], lines)
  }

  // If the census passes and git answers from its objects, the Lean paths on
  // disk, in the index and in HEAD are one set with the same modes and objects,
  // and each file is its committed blob up to CRLF or LF.
  lemma PassMeansSameSources(f: Findings, index: Index, tree: Option<Tree>, order: seq<string>, catFile: CatFile, objects: map<string, Bytes>)
    requires tree.Some? && tree.value.modes.Keys == tree.value.ids.Keys && Lists(order, tree.value.ids.Keys)
    requires VerdictOf(f, index, tree, order, catFile) == Passed
    requires AnswersFrom(catFile, objects, IdsOf(tree.value, order))
    ensures f.disk.Keys == index.modes.Keys == tree.value.ids.Keys
    ensures index.modes == tree.value.modes && index.ids == tree.value.ids
    ensures forall p | p in f.disk :: SameText(f, tree.value, objects, p)
  {
    var ids := IdsOf(tree.value, order);
    BlobsReadBack(ids, Contents(objects, ids));
    assert BlobsFor(tree.value, order, catFile) == Some(Contents(objects, ids));
    MatchMeansSameText(f, tree.value, order, objects);
  }

  lemma MatchMeansSameText(f: Findings, tree: Tree, order: seq<string>, objects: map<string, Bytes>)
    requires f.disk.Keys == tree.ids.Keys && Lists(order, tree.ids.Keys)
    requires forall id | id in IdsOf(tree, order) :: id in objects
    requires ContentsMatch(f.disk, order, Contents(objects, IdsOf(tree, order)))
    ensures forall p | p in f.disk :: SameText(f, tree, objects, p)
  {
    var ids := IdsOf(tree, order);
    forall p | p in f.disk ensures SameText(f, tree, objects, p) {
      assert p in order;
      var i :| 0 <= i < |order| && order[i] == p;
      assert ids[i] in ids;
      assert SameContent(f.disk, order[i], Contents(objects, ids)[i]);
      SameUpToLineEnds(f.disk[p], objects[tree.ids[p]]);
    }
  }

  // A file on disk that is committed, or its blob, has a carriage return that ends
  // no CRLF.
  ghost predicate LoneCr(f: Findings, tree: Tree, objects: map<string, Bytes>, p: string) {
    && p in f.disk && p in tree.ids && tree.ids[p] in objects
    && exists i: nat :: LoneCrAt(f.disk[p], i) || LoneCrAt(objects[tree.ids[p]], i)
  }

  // Every record that names a Lean-like path names a Lean file, plain and at stage
  // 0, and no other record names it again; none is malformed.
  predicate RecordsPlain(records: seq<Record>) {
    && (forall r | r in records :: r != Malformed && (r.Named? ==> IsLeanPath(r.path) && r.a == "100644" && r.c == "0"))
    && (forall i, j | 0 <= i < j < |records| && records[i].Named? && records[j].Named? :: records[i].path != records[j].path)
  }

  // What the census demands of the findings, of the records git printed for the
  // index, and of disk, index and HEAD together.
  ghost predicate SourcesInOrder(f: Findings, records: seq<Record>, index: Index, tree: Tree, objects: map<string, Bytes>) {
    && f.boundaryErrors == {} && f.specialFlags == {} && f.differing == {} && f.ignored == {} && f.stale == {}
    && RecordsPlain(records)
    && (forall p :: p in f.disk <==> p in index.modes)
    && (forall p :: p in f.disk <==> p in tree.ids)
    && index.modes == tree.modes && index.ids == tree.ids
    && (forall p | p in f.disk :: SameText(f, tree, objects, p))
  }

  // Given that git answers from its objects: the census cannot be derived exactly
  // when some file it compares has a lone carriage return, and passes exactly when
  // all sources are in order.  In any other case it fails.
  lemma VerdictMeans(f: Findings, output: string, tree: Tree, order: seq<string>, catFile: CatFile, objects: map<string, Bytes>)
    requires tree.modes.Keys == tree.ids.Keys && Lists(order, tree.ids.Keys)
    requires AnswersFrom(catFile, objects, IdsOf(tree, order))
    ensures var verdict := VerdictOf(f, IndexIn(output), Some(tree), order, catFile);
            && (verdict == Passed <==> SourcesInOrder(f, RecordsIn(output), IndexIn(output), tree, objects))
            && (verdict == CannotDerive <==> exists p :: LoneCr(f, tree, objects, p))
  {
    var blobs := Contents(objects, IdsOf(tree, order));
    BlobsReadBack(IdsOf(tree, order), blobs);
    assert BlobsFor(tree, order, catFile) == Some(blobs);
    RefusalMeans(f, tree, order, objects);
    IndexCleanMeans(output);
    HoldsIff(f, RecordsIn(output), IndexIn(output), tree, order, objects);
  }

  lemma HoldsIff(f: Findings, records: seq<Record>, index: Index, tree: Tree, order: seq<string>, objects: map<string, Bytes>)
    requires Lists(order, tree.ids.Keys) && forall id | id in IdsOf(tree, order) :: id in objects
    requires tree.modes.Keys == tree.ids.Keys && (index.clean <==> RecordsPlain(records))
    ensures CensusHolds(f, index, tree, order, Contents(objects, IdsOf(tree, order))) <==> SourcesInOrder(f, records, index, tree, objects)
    ensures SourcesInOrder(f, records, index, tree, objects) ==> forall p :: !LoneCr(f, tree, objects, p)
  {
    var blobs := Contents(objects, IdsOf(tree, order));
    if CensusHolds(f, index, tree, order, blobs) {
      MatchMeansSameText(f, tree, order, objects);
    }
    if SourcesInOrder(f, records, index, tree, objects) {
      SameTextMatches(f, tree, order, objects);
      assert f.disk.Keys == index.modes.Keys;
    }
  }

  lemma RefusalMeans(f: Findings, tree: Tree, order: seq<string>, objects: map<string, Bytes>)
    requires Lists(order, tree.ids.Keys) && forall id | id in IdsOf(tree, order) :: id in objects
    ensures RefusesSome(f.disk, order, Contents(objects, IdsOf(tree, order))) <==> exists p :: LoneCr(f, tree, objects, p)
  {
    var ids := IdsOf(tree, order);
    var blobs := Contents(objects, ids);
    forall i | 0 <= i < |order| && order[i] in f.disk
      ensures Normalized(f.disk[order[i]]) == None || Normalized(blobs[i]) == None <==> LoneCr(f, tree, objects, order[i])
    {
      assert ids[i] in ids && order[i] in order;
      RefusedIffLoneCr(f.disk[order[i]]);
      RefusedIffLoneCr(blobs[i]);
    }
    if p :| LoneCr(f, tree, objects, p) {
      assert p in order;
      var i :| 0 <= i < |order| && order[i] == p;
    }
  }

  lemma IndexCleanMeans(output: string)
    ensures IndexIn(output).clean <==> RecordsPlain(RecordsIn(output))
  {
    var records := RecordsIn(output);
    IndexMeaning(records, |records|);
    if AllAcceptable(records, |records|) {
      forall r | r in records ensures Acceptable(r) {
        var i :| 0 <= i < |records| && records[i] == r;
        assert AcceptableAt(records, i);
      }
    } else {
      var i :| 0 <= i < |records| && !AcceptableAt(records, i);
      assert records[i] in records;
    }
  }

  lemma SameTextMatches(f: Findings, tree: Tree, order: seq<string>, objects: map<string, Bytes>)
    requires Lists(order, tree.ids.Keys) && forall id | id in IdsOf(tree, order) :: id in objects
    requires forall p | p in f.disk :: SameText(f, tree, objects, p)
    ensures ContentsMatch(f.disk, order, Contents(objects, IdsOf(tree, order)))
    ensures forall p :: !LoneCr(f, tree, objects, p)
  {
    var ids := IdsOf(tree, order);
    forall i | 0 <= i < |order| ensures SameContent(f.disk, order[i], Contents(objects, ids)[i]) {
      if order[i] in f.disk {
        assert ids[i] in ids;
        TextsNormalizeAlike(f, tree, objects, order[i]);
      }
    }
    forall p | p in f.disk ensures !LoneCr(f, tree, objects, p) {
      TextsNormalizeAlike(f, tree, objects, p);
    }
  }

  lemma TextsNormalizeAlike(f: Findings, tree: Tree, objects: map<string, Bytes>, p: string)
    requires SameText(f, tree, objects, p)
    ensures Normalized(f.disk[p]).Some? && Normalized(f.disk[p]) == Normalized(objects[tree.ids[p]])
    ensures !LoneCr(f, tree, objects, p)
  {
    var lines :| IsVariant(f.disk[p], lines) && IsVariant(objects[tree.ids[p]], lines);
    NormalizedIff(f.disk[p], lines);
    NormalizedIff(objects[tree.ids[p]], lines);
    RefusedIffLoneCr(f.disk[p]);
    RefusedIffLoneCr(objects[tree.ids[p]]);
  }

  // What a clean index says of the records git printed.
  lemma CleanIndexMeans(output: string, path: string)
    requires IndexIn(output).clean && path in IndexIn(output).modes
    ensures IsLeanPath(path)
    ensures exists i | 0 <= i < |RecordsIn(output)| ::
              NamesPath(RecordsIn(output), i, path) && RecordsIn(output)[i].a == "100644" && RecordsIn(output)[i].c == "0"
  {
    var records := RecordsIn(output);
    IndexMeaning(records, |records|);
    var i :| 0 <= i < |records| && NamesPath(records, i, path);
    assert AcceptableAt(records, i);
  }
}
