/** Which library should have reached an orphan module, as
    scripts/check_orphan_modules.py reports it. */
module OwningLibrary {
  import opened Options
  import opened Text

  datatype BuildRoot = BuildRoot(moduleName: string, isLibrary: bool, target: string)

  predicate IsPrefix(a: seq<string>, b: seq<string>) {
    |a| <= |b| && b[..|a|] == a
  }

  // Root r is a library whose dotted components start the module's.
  predicate Owns(r: BuildRoot, moduleName: string) {
    r.isLibrary && IsPrefix(Split(r.moduleName, '.'), Split(moduleName, '.'))
  }

  // The owning library with the most components; the first of them in order.
  predicate IsOwner(roots: seq<BuildRoot>, moduleName: string, best: Option<BuildRoot>) {
    match best
    case None => forall r | r in roots :: !Owns(r, moduleName)
    case Some(b) =>
      exists k | 0 <= k < |roots| ::
        && roots[k] == b && Owns(b, moduleName)
        && (forall r | r in roots && Owns(r, moduleName) :: |Split(r.moduleName, '.')| <= |Split(b.moduleName, '.')|)
        && (forall i | 0 <= i < k && Owns(roots[i], moduleName) :: |Split(roots[i].moduleName, '.')| < |Split(b.moduleName, '.')|)
  }

  method FindOwningLibrary(roots: seq<BuildRoot>, moduleName: string) returns (best: Option<BuildRoot>)
    ensures IsOwner(roots, moduleName, best)
  {
    var parts := Split(moduleName, '.');
    best := None;
    var bestLength := 0;
    ghost var k := 0;
    for i := 0 to |roots|
      invariant best.None? ==> bestLength == 0 && forall j | 0 <= j < i :: !Owns(roots[j], moduleName)
      invariant best.Some? ==>
                  && 0 <= k < i && best == Some(roots[k]) && Owns(roots[k], moduleName)
                  && bestLength == |Split(roots[k].moduleName, '.')|
                  && (forall j | 0 <= j < i && Owns(roots[j], moduleName) :: |Split(roots[j].moduleName, '.')| <= bestLength)
                  && (forall j | 0 <= j < k && Owns(roots[j], moduleName) :: |Split(roots[j].moduleName, '.')| < bestLength)
    {
      var root := roots[i];
      if root.isLibrary {
        var rootParts := Split(root.moduleName, '.');
        if IsPrefix(rootParts, parts) && |rootParts| > bestLength {
          best, bestLength := Some(root), |rootParts|;
          k := i;
        }
      }
    }
  }

  lemma {:induction false} JoinMore(a: seq<string>, b: seq<string>, c: char)
    requires a != [] && b != []
    ensures Join(a + b, c) == Join(a, c) + [c] + Join(b, c)
  {
    if |a| == 1 {
      assert (a + b)[1..] == b;
    } else {
      JoinMore(a[1..], b, c);
      assert (a + b)[1..] == a[1..] + b;
    }
  }

  lemma PrefixJoined(a: seq<string>, b: seq<string>, c: char)
    requires a != [] && IsPrefix(a, b)
    ensures Join(b, c) == Join(a, c) || Join(a, c) + [c] <= Join(b, c)
  {
    if |a| < |b| {
      assert b == a + b[|a|..];
      JoinMore(a, b[|a|..], c);
    } else {
      assert b == a;
    }
  }

  lemma DottedSplits(root: string, moduleName: string)
    requires root + ['.'] <= moduleName
    ensures IsPrefix(Split(root, '.'), Split(moduleName, '.'))
  {
    var rest := moduleName[|root| + 1..];
    assert moduleName == root + ['.'] + rest;
    SplitConcat(root, rest, '.');
  }

  // Sharing leading components is being the module itself or a dotted prefix of
  // it: `Stdlib` owns `Stdlib.Zlib` but not `StdlibExtra`.
  lemma OwnsIffDottedPrefix(root: string, moduleName: string)
    ensures IsPrefix(Split(root, '.'), Split(moduleName, '.')) <==> moduleName == root || root + ['.'] <= moduleName
  {
    JoinOfSplit(root, '.');
    JoinOfSplit(moduleName, '.');
    if IsPrefix(Split(root, '.'), Split(moduleName, '.')) {
      PrefixJoined(Split(root, '.'), Split(moduleName, '.'), '.');
    }
    if root + ['.'] <= moduleName {
      DottedSplits(root, moduleName);
    }
  }

  // Two libraries that own a module with equally many components are the same
  // module, so which of them is reported makes no difference to its name.
  lemma OwnersAgree(r: BuildRoot, s: BuildRoot, moduleName: string)
    requires Owns(r, moduleName) && Owns(s, moduleName) && |Split(r.moduleName, '.')| == |Split(s.moduleName, '.')|
    ensures r.moduleName == s.moduleName
  {
    JoinOfSplit(r.moduleName, '.');
    JoinOfSplit(s.moduleName, '.');
  }
}
