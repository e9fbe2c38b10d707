/** The records of git's index and of a committed tree that name Lean files, as
    scripts/check_no_ignored_lean_sources.py reads them. */
module IndexRecords {
  import opened Options
  import opened Text

  const NUL: char := '\0'

  predicate IsLeanPath(path: string) {
    EndsWith(path, ".lean")
  }

  predicate IsLeanLike(path: string) {
    EndsWith(Lower(path), ".lean")
  }

  // The part before the first tab and the part after it.
  function CutTab(record: string): Option<(string, string)> {
    if record == "" then None
    else if record[0] == '\t' then Some(("", record[1..]))
    else match CutTab(record[1..])
      case None => None
      case Some((metadata, path)) => Some(([record[0]] + metadata, path))
  }

  // A record: not one of a Lean file, malformed, or three fields and a Lean path.
  datatype Record = Ignored | Malformed | Named(a: string, b: string, c: string, path: string)

  function ReadRecord(record: string): Record {
    match CutTab(record)
    case None => Ignored
    case Some((metadata, path)) =>
      var fields := Split(metadata, ' ');
      if |fields| != 3 then Malformed
      else if !IsLeanLike(path) then Ignored
      else Named(fields[0], fields[1], fields[2], path)
  }

  function WriteRecord(a: string, b: string, c: string, path: string): string {
    (a + [' '] + b + [' '] + c) + ['\t'] + path
  }

  predicate IsField(s: string) {
    Without(s, ' ') && Without(s, '\t')
  }

  lemma {:induction false} CutTabBack(metadata: string, path: string)
    requires Without(metadata, '\t')
    ensures CutTab(metadata + ['\t'] + path) == Some((metadata, path))
  {
    var record := metadata + ['\t'] + path;
    if metadata == "" {
      assert record[1..] == path;
    } else {
      CutTabBack(metadata[1..], path);
      assert record[1..] == metadata[1..] + ['\t'] + path;
      assert [metadata[0]] + metadata[1..] == metadata;
    }
  }

  // A record reads back as what it was written from, whatever the path holds.
  lemma RecordReadsBack(a: string, b: string, c: string, path: string)
    requires IsField(a) && IsField(b) && IsField(c)
    ensures ReadRecord(WriteRecord(a, b, c, path)) == if IsLeanLike(path) then Named(a, b, c, path) else Ignored
  {
    var metadata := a + [' '] + b + [' '] + c;
    CutTabBack(metadata, path);
    SplitWithout(a, ' ');
    SplitWithout(b, ' ');
    SplitWithout(c, ' ');
    SplitConcat(a + [' '] + b, c, ' ');
    SplitConcat(a, b, ' ');
    assert Split(metadata, ' ') == [a, b, c];
  }

  lemma {:induction false} CutTabMeans(record: string, metadata: string, path: string)
    ensures CutTab(record) == Some((metadata, path)) <==> Without(metadata, '\t') && record == metadata + ['\t'] + path
    decreases |record|
  {
    if Without(metadata, '\t') && record == metadata + ['\t'] + path {
      CutTabBack(metadata, path);
    }
    if CutTab(record) == Some((metadata, path)) && record[0] != '\t' {
      CutTabMeans(record[1..], metadata[1..], path);
      assert record == [record[0]] + record[1..] && metadata == [record[0]] + metadata[1..];
    }
  }

  // A record names a file exactly when it is three fields, a tab and a path that
  // looks like a Lean file's; it is malformed exactly when other than two spaces
  // stand before the first tab.
  lemma RecordMeans(record: string, a: string, b: string, c: string, path: string)
    ensures ReadRecord(record) == Named(a, b, c, path) <==>
            IsField(a) && IsField(b) && IsField(c) && IsLeanLike(path) && record == WriteRecord(a, b, c, path)
    ensures ReadRecord(record) == Malformed <==>
            exists metadata, rest :: IsCut(record, metadata, rest) && |Split(metadata, ' ')| != 3
  {
    if IsField(a) && IsField(b) && IsField(c) && IsLeanLike(path) && record == WriteRecord(a, b, c, path) {
      RecordReadsBack(a, b, c, path);
    }
    match CutTab(record)
    case None =>
      forall metadata, rest ensures !IsCut(record, metadata, rest) {
        CutTabMeans(record, metadata, rest);
      }
    case Some((metadata, rest)) =>
      CutTabMeans(record, metadata, rest);
      assert IsCut(record, metadata, rest);
      forall m, r | IsCut(record, m, r) ensures m == metadata && r == rest {
        CutTabMeans(record, m, r);
      }
      if ReadRecord(record) == Named(a, b, c, path) {
        FieldsOf(metadata, a, b, c);
      }
  }

  // The record is `metadata`, its first tab, and `rest`.
  predicate IsCut(record: string, metadata: string, rest: string) {
    Without(metadata, '\t') && record == metadata + ['\t'] + rest
  }

  lemma FieldsOf(metadata: string, a: string, b: string, c: string)
    requires Without(metadata, '\t') && Split(metadata, ' ') == [a, b, c]
    ensures IsField(a) && IsField(b) && IsField(c) && metadata == a + [' '] + b + [' '] + c
  {
    SplitClean(metadata, ' ');
    var fields := Split(metadata, ' ');
    assert fields[0] in fields && fields[1] in fields && fields[2] in fields;
    JoinOfSplit(metadata, ' ');
    JoinThree(a, b, c);
    WithoutParts(a + [' '] + b + [' '], c, '\t');
    WithoutParts(a + [' '], b + [' '], '\t');
    WithoutParts(a, [' '], '\t');
    WithoutParts(b, [' '], '\t');
  }

  lemma JoinThree(a: string, b: string, c: string)
    ensures Join([a, b, c], ' ') == a + [' '] + b + [' '] + c
    ensures a + [' '] + b + [' '] + c == (a + [' '] + b + [' ']) + c
    ensures a + [' '] + b + [' '] == (a + [' ']) + (b + [' '])
  {
    assert [a, b, c][1..] == [b, c] && [b, c][1..] == [c];
    assert Join([b, c], ' ') == b + [' '] + c;
    assert Join([a, b, c], ' ') == a + [' '] + (b + [' '] + c);
  }

  // ----- The index -----

  // Modes and object names by path, and whether nothing was objected to.
  datatype Index = Index(modes: map<string, string>, ids: map<string, string>, clean: bool)

  predicate Acceptable(r: Record) {
    !r.Malformed? && (r.Named? ==> IsLeanPath(r.path) && r.c == "0" && r.a == "100644")
  }

  // An index record gives mode, object name and stage.
  function AddRecord(index: Index, r: Record): Index {
    if r.Ignored? then index
    else if r.Malformed? then index.(clean := false)
    else Index(index.modes[r.path := r.a], index.ids[r.path := r.b], index.clean && Acceptable(r) && r.path !in index.modes)
  }

  function IndexOf(records: seq<Record>, n: nat): Index
    requires n <= |records|
  {
    if n == 0 then Index(map[], map[], true) else AddRecord(IndexOf(records, n - 1), records[n - 1])
  }

  function RecordsIn(output: string): (records: seq<Record>)
    ensures |records| == |Split(output, NUL)|
  {
    var texts := Split(output, NUL);
    seq(|texts|, i requires 0 <= i < |texts| => ReadRecord(texts[i]))
  }

  function IndexIn(output: string): Index {
    var records := RecordsIn(output);
    IndexOf(records, |records|)
  }

  method ParseIndexStageOutput(output: string) returns (index: Index)
    ensures index == IndexIn(output)
  {
    ghost var records := RecordsIn(output);
    var texts := Split(output, NUL);
    index := Index(map[], map[], true);
    for i := 0 to |texts|
      invariant index == IndexOf(records, i)
    {
      var r := ReadRecord(texts[i]);
      assert r == records[i];
      if r.Malformed? {
        index := index.(clean := false);
      } else if r.Named? {
        var clean := index.clean;
        if !IsLeanPath(r.path) || r.path in index.modes || r.c != "0" || r.a != "100644" {
          clean := false;
        }
        index := Index(index.modes[r.path := r.a], index.ids[r.path := r.b], clean);
      }
    }
  }

  predicate NamesPath(records: seq<Record>, i: nat, path: string) {
    i < |records| && records[i].Named? && records[i].path == path
  }

  // Record i is the last of the first n that names its path.
  predicate IsLastNaming(records: seq<Record>, n: nat, i: int) {
    && 0 <= i < n <= |records| && records[i].Named?
    && forall j | i < j < n :: !NamesPath(records, j, records[i].path)
  }

  lemma LastNamingStep(records: seq<Record>, n: nat, i: int)
    requires 0 < n <= |records| && IsLastNaming(records, n, i) && i < n - 1
    ensures IsLastNaming(records, n - 1, i)
    ensures records[n - 1].Named? ==> records[n - 1].path != records[i].path
  {
    assert !NamesPath(records, n - 1, records[i].path);
  }

  // The index gives each path the mode and object of the last record naming it.
  lemma {:induction false} IndexValues(records: seq<Record>, n: nat, i: int)
    requires IsLastNaming(records, n, i)
    ensures var index, r := IndexOf(records, n), records[i];
            && r.path in index.modes && index.modes[r.path] == r.a
            && r.path in index.ids && index.ids[r.path] == r.b
  {
    if i < n - 1 {
      LastNamingStep(records, n, i);
      IndexValues(records, n - 1, i);
    }
  }

  predicate PathsOnce(records: seq<Record>, n: nat) {
    n <= |records| && forall i, j | 0 <= i < j < n && records[i].Named? && records[j].Named? :: records[i].path != records[j].path
  }

  predicate AcceptableAt(records: seq<Record>, i: nat) {
    i < |records| && Acceptable(records[i])
  }

  predicate AllAcceptable(records: seq<Record>, n: nat) {
    forall i {:trigger AcceptableAt(records, i)} | 0 <= i < n :: AcceptableAt(records, i)
  }

  // The maps hold exactly the named paths, and nothing was objected to exactly
  // when every record is a plain file at stage 0 with the exact extension, named
  // only once.
  lemma {:induction false} IndexMeaning(records: seq<Record>, n: nat)
    requires n <= |records|
    ensures var index := IndexOf(records, n);
            && index.modes.Keys == index.ids.Keys
            && (forall path :: path in index.modes <==> exists i | 0 <= i < n :: NamesPath(records, i, path))
            && (index.clean <==> AllAcceptable(records, n) && PathsOnce(records, n))
  {
    if n > 0 {
      IndexMeaning(records, n - 1);
      var before, r := IndexOf(records, n - 1), records[n - 1];
      var index := IndexOf(records, n);
      forall path ensures path in index.modes <==> exists i | 0 <= i < n :: NamesPath(records, i, path) {
        if path in before.modes {
          var i :| 0 <= i < n - 1 && NamesPath(records, i, path);
        }
        assert r.Named? && r.path == path ==> NamesPath(records, n - 1, path);
      }
      assert AllAcceptable(records, n) <==> AllAcceptable(records, n - 1) && AcceptableAt(records, n - 1);
      PathsOnceStep(records, n);
    }
  }

  lemma PathsOnceStep(records: seq<Record>, n: nat)
    requires 0 < n <= |records|
    ensures var r := records[n - 1];
            PathsOnce(records, n) <==>
              PathsOnce(records, n - 1) && (r.Named? ==> !exists i | 0 <= i < n - 1 :: NamesPath(records, i, r.path))
  {
    var r := records[n - 1];
    if PathsOnce(records, n) && r.Named? {
      forall i | 0 <= i < n - 1 ensures !NamesPath(records, i, r.path) {
      }
    }
    if PathsOnce(records, n - 1) && (r.Named? ==> !exists i | 0 <= i < n - 1 :: NamesPath(records, i, r.path)) {
      forall i, j | 0 <= i < j < n && records[i].Named? && records[j].Named? ensures records[i].path != records[j].path {
        assert j == n - 1 ==> !NamesPath(records, i, r.path);
      }
    }
  }

  // ----- The committed tree -----

  // A tree record gives mode, object type and object name; anything but a blob
  // makes the tree unusable, malformed records are passed over.
  datatype Tree = Tree(modes: map<string, string>, ids: map<string, string>)

  function AddTreeRecord(tree: Option<Tree>, r: Record): Option<Tree> {
    if tree.None? || !r.Named? then tree
    else if r.b != "blob" then None
    else Some(Tree(tree.value.modes[r.path := r.a], tree.value.ids[r.path := r.c]))
  }

  function TreeOf(records: seq<Record>, n: nat): (tree: Option<Tree>)
    requires n <= |records|
    ensures tree.Some? ==> tree.value.modes.Keys == tree.value.ids.Keys
  {
    if n == 0 then Some(Tree(map[], map[])) else AddTreeRecord(TreeOf(records, n - 1), records[n - 1])
  }

  function TreeIn(output: string): (tree: Option<Tree>)
    ensures tree.Some? ==> tree.value.modes.Keys == tree.value.ids.Keys
  {
    var records := RecordsIn(output);
    TreeOf(records, |records|)
  }

  // The tree is unusable exactly when a record names a Lean path that is no blob;
  // else its maps hold exactly the named paths.
  lemma {:induction false} TreeMeaning(records: seq<Record>, n: nat)
    requires n <= |records|
    ensures TreeOf(records, n) == None <==> exists i | 0 <= i < n :: records[i].Named? && records[i].b != "blob"
    ensures TreeOf(records, n).Some? ==>
              forall path :: path in TreeOf(records, n).value.ids <==> exists i | 0 <= i < n :: NamesPath(records, i, path)
  {
    if n > 0 {
      TreeMeaning(records, n - 1);
      if TreeOf(records, n).Some? {
        var before, tree, r := TreeOf(records, n - 1).value, TreeOf(records, n).value, records[n - 1];
        forall path ensures path in tree.ids <==> exists i | 0 <= i < n :: NamesPath(records, i, path) {
          if path in before.ids {
            var i :| 0 <= i < n - 1 && NamesPath(records, i, path);
          }
          assert r.Named? && r.path == path ==> NamesPath(records, n - 1, path);
        }
      }
    }
  }

  // And give each path the mode and object of the last record naming it.
  lemma {:induction false} TreeValues(records: seq<Record>, n: nat, i: int)
    requires IsLastNaming(records, n, i) && TreeOf(records, n).Some?
    ensures var tree, r := TreeOf(records, n).value, records[i];
            && r.path in tree.modes && tree.modes[r.path] == r.a
            && r.path in tree.ids && tree.ids[r.path] == r.c
  {
    if i < n - 1 {
      LastNamingStep(records, n, i);
      TreeValues(records, n - 1, i);
    }
  }

  method CommittedLeanSources(output: string) returns (tree: Option<Tree>)
    ensures tree == TreeIn(output)
  {
    ghost var records := RecordsIn(output);
    var texts := Split(output, NUL);
    var found := Tree(map[], map[]);
    for i := 0 to |texts|
      invariant TreeOf(records, i) == Some(found)
    {
      var r := ReadRecord(texts[i]);
      assert r == records[i];
      if r.Named? {
        if r.b != "blob" {
          BrokenStays(records, i + 1, |records|);
          return None;
        }
        found := Tree(found.modes[r.path := r.a], found.ids[r.path := r.c]);
      }
    }
    return Some(found);
  }

  lemma {:induction false} BrokenStays(records: seq<Record>, m: nat, n: nat)
    requires m <= n <= |records| && TreeOf(records, m) == None
    ensures TreeOf(records, n) == None
  {
    if m < n {
      BrokenStays(records, m, n - 1);
    }
  }
}
