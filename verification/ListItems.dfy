/** The bounds of one list item, within which scripts/check_doc_facade.py lets a
    status marker excuse a claim.  Lines are numbered from 1. */
module ListItems {
  import opened Options

  // A line as the search sees it: blank, the start of a bulleted or numbered item
  // with its indentation, or anything else.
  datatype Line = BlankLine | ItemStart(indent: nat) | Prose

  datatype Bounds = Bounds(first: nat, last: nat)

  predicate StartsItem(lines: seq<Line>, j: nat) {
    1 <= j <= |lines| && lines[j - 1].ItemStart?
  }

  predicate IsBlank(lines: seq<Line>, j: nat) {
    1 <= j <= |lines| && lines[j - 1].BlankLine?
  }

  function Indent(lines: seq<Line>, j: nat): nat {
    if StartsItem(lines, j) then lines[j - 1].indent else 0
  }

  // Line j ends an item of the given indentation before it.
  predicate Breaks(lines: seq<Line>, indent: nat, j: nat) {
    IsBlank(lines, j) || (StartsItem(lines, j) && Indent(lines, j) <= indent)
  }

  // The nearest item start at or above line k, with no blank line in between.
  predicate Encloses(lines: seq<Line>, s: nat, k: nat) {
    && StartsItem(lines, s) && s <= k <= |lines|
    && (forall j: nat | s < j <= k :: !StartsItem(lines, j))
    && (forall j: nat | s < j < k :: !IsBlank(lines, j))
  }

  predicate Unbroken(lines: seq<Line>, indent: nat, first: nat, last: nat) {
    forall j: nat | first < j <= last :: !Breaks(lines, indent, j)
  }

  predicate AreBounds(lines: seq<Line>, k: nat, b: Bounds) {
    && Encloses(lines, b.first, k)
    && b.first <= b.last <= |lines|
    && Unbroken(lines, Indent(lines, b.first), b.first, b.last)
    && (b.last < |lines| ==> Breaks(lines, Indent(lines, b.first), b.last + 1))
  }

  method FindStart(lines: seq<Line>, k: nat) returns (start: Option<nat>)
    requires 1 <= k <= |lines|
    ensures start.Some? ==> Encloses(lines, start.value, k)
    ensures start.None? ==> forall s: nat :: !Encloses(lines, s, k)
  {
    var j := k;
    while j > 0
      invariant 0 <= j <= k
      invariant forall i: nat | j < i <= k :: !StartsItem(lines, i)
      invariant forall i: nat | j < i < k :: !IsBlank(lines, i)
    {
      if IsBlank(lines, j) && j != k {
        return None;
      }
      if StartsItem(lines, j) {
        return Some(j);
      }
      j := j - 1;
    }
    return None;
  }

  method ItemBounds(lines: seq<Line>, k: nat) returns (bounds: Option<Bounds>)
    requires 1 <= k <= |lines|
    ensures bounds.Some? ==> AreBounds(lines, k, bounds.value)
    ensures bounds.None? ==> forall s: nat :: !Encloses(lines, s, k)
  {
    var start := FindStart(lines, k);
    if start.None? {
      return None;
    }
    var indent := Indent(lines, start.value);
    var end := start.value;
    while end < |lines| && !Breaks(lines, indent, end + 1)
      invariant start.value <= end <= |lines|
      invariant Unbroken(lines, indent, start.value, end)
    {
      end := end + 1;
    }
    return Some(Bounds(start.value, end));
  }

  // The bounds are determined, and hold the line exactly unless it is blank.
  lemma BoundsHoldLine(lines: seq<Line>, k: nat, b: Bounds, c: Bounds)
    requires AreBounds(lines, k, b) && AreBounds(lines, k, c)
    ensures b == c
    ensures k <= b.last <==> !IsBlank(lines, k)
  {
    assert b.first < c.first ==> !StartsItem(lines, c.first);
    assert c.first < b.first ==> !StartsItem(lines, b.first);
    var indent := Indent(lines, b.first);
    var afterB: nat, afterC: nat := b.last + 1, c.last + 1;
    assert b.last < |lines| ==> Breaks(lines, indent, afterB);
    assert c.last < |lines| ==> Breaks(lines, indent, afterC);
    assert IsBlank(lines, k) ==> k != b.first && Breaks(lines, indent, k);
  }

  // Items nest: the bounds of two lines are disjoint, or one lies in the other,
  // the inner one with the greater indentation or the same start.
  lemma ItemsNest(lines: seq<Line>, k: nat, b: Bounds, m: nat, c: Bounds)
    requires AreBounds(lines, k, b) && AreBounds(lines, m, c) && b.first <= c.first
    ensures c.first > b.last || c.last <= b.last
    ensures b.first < c.first <= b.last ==> Indent(lines, c.first) > Indent(lines, b.first)
  {
    if b.first < c.first <= b.last {
      assert !Breaks(lines, Indent(lines, b.first), c.first);
    }
    if c.first <= b.last < c.last {
      assert Breaks(lines, Indent(lines, b.first), b.last + 1);
      assert Breaks(lines, Indent(lines, c.first), b.last + 1);
    }
  }
}
