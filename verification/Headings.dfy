/** Where scripts/check_doc_facade.py looks for a status marker: the sections of
    a Markdown file that enclose a line, and its Lean code fences.  Lines are
    numbered from 1. */
module Headings {
  import opened Text

  function Lstrip(line: string): string {
    if line != "" && IsSpace(line[0]) then Lstrip(line[1..]) else line
  }

  function Hashes(line: string): nat {
    if line != "" && line[0] == '#' then 1 + Hashes(line[1..]) else 0
  }

  // At most three spaces, one to six hashes, a space.
  predicate IsHeading(line: string) {
    var rest := Lstrip(line);
    var h := Hashes(rest);
    |line| - |rest| <= 3 && 1 <= h <= 6 && h < |rest| && IsSpace(rest[h])
  }

  function HeadingLevel(line: string): nat {
    Hashes(Lstrip(line))
  }

  function Pound(n: nat): string {
    if n == 0 then "" else "#" + Pound(n - 1)
  }

  lemma {:induction false} LstripMeans(indent: string, rest: string)
    requires AllSpace(indent) && (rest == "" || !IsSpace(rest[0]))
    ensures Lstrip(indent + rest) == rest
  {
    if indent == "" {
      assert indent + rest == rest;
    } else {
      assert (indent + rest)[1..] == indent[1..] + rest;
      LstripMeans(indent[1..], rest);
    }
  }

  lemma {:induction false} HashesMean(n: nat, rest: string)
    requires rest == "" || rest[0] != '#'
    ensures |Pound(n)| == n && Hashes(Pound(n) + rest) == n
  {
    if n == 0 {
      assert Pound(n) + rest == rest;
    } else {
      assert (Pound(n) + rest)[1..] == Pound(n - 1) + rest;
      HashesMean(n - 1, rest);
    }
  }

  // Up to three white-space characters, n hashes and white space head a section of
  // level n, whatever follows.
  lemma SpelledIsHeading(indent: string, n: nat, space: char, rest: string)
    requires AllSpace(indent) && |indent| <= 3 && 1 <= n <= 6 && IsSpace(space)
    ensures var line := indent + (Pound(n) + ([space] + rest));
            IsHeading(line) && HeadingLevel(line) == n
  {
    var tail := Pound(n) + ([space] + rest);
    HashesMean(n, [space] + rest);
    LstripMeans(indent, tail);
  }

  lemma {:induction false} Lstripped(line: string) returns (indent: string)
    ensures AllSpace(indent) && line == indent + Lstrip(line)
  {
    indent := "";
    if line != "" && IsSpace(line[0]) {
      var others := Lstripped(line[1..]);
      indent := [line[0]] + others;
    }
  }

  lemma {:induction false} HashesTaken(line: string)
    ensures Hashes(line) <= |line| && line == Pound(Hashes(line)) + line[Hashes(line)..]
  {
    if line != "" && line[0] == '#' {
      HashesTaken(line[1..]);
      assert line == "#" + line[1..];
      assert line[1..][Hashes(line[1..])..] == line[Hashes(line)..];
    } else {
      assert Pound(0) + line[0..] == line;
    }
  }

  // And every heading is spelled so.
  lemma HeadingIsSpelled(line: string) returns (indent: string, space: char, rest: string)
    requires IsHeading(line)
    ensures AllSpace(indent) && |indent| <= 3 && 1 <= HeadingLevel(line) <= 6 && IsSpace(space)
    ensures line == indent + (Pound(HeadingLevel(line)) + ([space] + rest))
  {
    indent := Lstripped(line);
    var tail := Lstrip(line);
    var h := Hashes(tail);
    HashesTaken(tail);
    space, rest := tail[h], tail[h + 1..];
    assert tail[h..] == [space] + rest;
  }

  // The level of each line: 1 to 6 for a heading, 0 for any other line.
  function Levels(lines: seq<string>): (levels: seq<nat>)
    ensures |levels| == |lines|
    ensures forall i | 0 <= i < |lines| :: levels[i] <= 6 && (levels[i] > 0 <==> IsHeading(lines[i]))
    ensures forall i | 0 <= i < |lines| && IsHeading(lines[i]) :: levels[i] == HeadingLevel(lines[i])
  {
    seq(|lines|, i requires 0 <= i < |lines| => if IsHeading(lines[i]) then HeadingLevel(lines[i]) else 0)
  }

  function Level(levels: seq<nat>, j: nat): nat {
    if 1 <= j <= |levels| then levels[j - 1] else 0
  }

  predicate HeadingAt(levels: seq<nat>, j: nat) {
    Level(levels, j) > 0
  }

  // ----- Sections, as Markdown nests them -----

  // The section of heading h runs to the next heading of its level or above it.
  predicate InSection(levels: seq<nat>, h: nat, k: nat) {
    HeadingAt(levels, h) && h <= k && forall i: nat | h < i <= k && HeadingAt(levels, i) :: Level(levels, i) > Level(levels, h)
  }

  // h is the nearest heading at or above line x.
  predicate Heads(levels: seq<nat>, h: nat, x: nat) {
    HeadingAt(levels, h) && h <= x && forall i: nat | h < i <= x :: !HeadingAt(levels, i)
  }

  // The sections open at line k by one forward pass: a heading closes every open
  // section that is not of a smaller level, then opens its own.
  function Close(levels: seq<nat>, stack: seq<nat>, level: nat): (open: seq<nat>)
    ensures open <= stack
    decreases |stack|
  {
    if stack == [] || Level(levels, stack[|stack| - 1]) < level then stack
    else Close(levels, stack[..|stack| - 1], level)
  }

  function OpenSections(levels: seq<nat>, k: nat): seq<nat> {
    if k == 0 then []
    else if HeadingAt(levels, k) then Close(levels, OpenSections(levels, k - 1), Level(levels, k)) + [k]
    else OpenSections(levels, k - 1)
  }

  // Line numbers and levels both grow from the outermost section inwards.
  predicate Nested(levels: seq<nat>, stack: seq<nat>) {
    forall i, j | 0 <= i < j < |stack| :: stack[i] < stack[j] && Level(levels, stack[i]) < Level(levels, stack[j])
  }

  predicate Contains(stack: seq<nat>, h: nat) {
    h in stack
  }

  // The stack holds exactly the sections that contain line k.
  predicate HoldsSections(levels: seq<nat>, stack: seq<nat>, k: nat) {
    forall h: nat | h <= k :: Contains(stack, h) <==> InSection(levels, h, k)
  }

  lemma {:induction false} CloseKeeps(levels: seq<nat>, stack: seq<nat>, level: nat)
    requires Nested(levels, stack)
    ensures Nested(levels, Close(levels, stack, level))
    ensures forall h: nat :: Contains(Close(levels, stack, level), h) <==> Contains(stack, h) && Level(levels, h) < level
    decreases |stack|
  {
    if stack != [] {
      var last := stack[|stack| - 1];
      var rest := stack[..|stack| - 1];
      assert forall h: nat :: Contains(stack, h) <==> Contains(rest, h) || h == last;
      if Level(levels, last) >= level {
        CloseKeeps(levels, rest, level);
      }
    }
  }

  lemma InSectionStep(levels: seq<nat>, h: nat, k: nat)
    requires h < k
    ensures InSection(levels, h, k) <==>
            InSection(levels, h, k - 1) && (HeadingAt(levels, k) ==> Level(levels, h) < Level(levels, k))
  {
  }

  ghost predicate Below(stack: seq<nat>, k: nat) {
    forall h: nat :: Contains(stack, h) ==> h <= k
  }

  ghost predicate IsStack(levels: seq<nat>, stack: seq<nat>, k: nat) {
    Nested(levels, stack) && Below(stack, k) && HoldsSections(levels, stack, k)
  }

  lemma PushHeading(levels: seq<nat>, before: seq<nat>, k: nat)
    requires k > 0 && HeadingAt(levels, k) && IsStack(levels, before, k - 1)
    ensures IsStack(levels, Close(levels, before, Level(levels, k)) + [k], k)
  {
    CloseKeeps(levels, before, Level(levels, k));
    var kept := Close(levels, before, Level(levels, k));
    var after := kept + [k];
    assert forall h: nat :: Contains(after, h) <==> Contains(kept, h) || h == k;
    assert forall i | 0 <= i < |kept| :: Contains(kept, kept[i]);
    forall h: nat | h <= k ensures Contains(after, h) <==> InSection(levels, h, k) {
      if h < k {
        InSectionStep(levels, h, k);
      }
    }
  }

  lemma PassLine(levels: seq<nat>, stack: seq<nat>, k: nat)
    requires k > 0 && !HeadingAt(levels, k) && IsStack(levels, stack, k - 1)
    ensures IsStack(levels, stack, k)
  {
    forall h: nat | h <= k ensures Contains(stack, h) <==> InSection(levels, h, k) {
      if h < k {
        InSectionStep(levels, h, k);
      }
    }
  }

  // The forward pass keeps exactly the sections that contain the line.
  lemma {:induction false} OpenIffInSection(levels: seq<nat>, k: nat)
    ensures IsStack(levels, OpenSections(levels, k), k)
  {
    if k > 0 {
      OpenIffInSection(levels, k - 1);
      if HeadingAt(levels, k) {
        PushHeading(levels, OpenSections(levels, k - 1), k);
      } else {
        PassLine(levels, OpenSections(levels, k - 1), k);
      }
    } else {
      assert forall h: nat | h <= 0 :: !HeadingAt(levels, h);
    }
  }

  // ----- The windows -----

  datatype Window = Window(first: int, last: int)

  predicate IsNextHeading(levels: seq<nat>, start: nat, next: nat) {
    && start < next <= |levels| + 1
    && (forall i: nat | start < i < next :: !HeadingAt(levels, i))
    && (next <= |levels| ==> HeadingAt(levels, next))
  }

  method NextHeadingAfter(levels: seq<nat>, start: nat) returns (next: nat)
    requires 1 <= start <= |levels|
    ensures IsNextHeading(levels, start, next)
  {
    next := start + 1;
    while next <= |levels| && !HeadingAt(levels, next)
      invariant start < next <= |levels| + 1
      invariant forall i: nat | start < i < next :: !HeadingAt(levels, i)
    {
      next := next + 1;
    }
  }

  // The window from line `first` to just before the next heading.
  predicate IsIntro(levels: seq<nat>, first: nat, w: Window) {
    w.first == first && w.last >= first && IsNextHeading(levels, first, w.last + 1)
  }

  // The windows the forward pass asks for: the intros of the open sections,
  // innermost first, or the text before the first heading.
  predicate AreWindows(levels: seq<nat>, k: nat, windows: seq<Window>) {
    var stack := OpenSections(levels, k);
    if stack == [] then |windows| == 1 && IsIntro(levels, 1, windows[0])
    else IntrosOf(levels, stack, windows) && |windows| == |stack|
  }

  predicate IntrosOf(levels: seq<nat>, stack: seq<nat>, windows: seq<Window>) {
    |windows| <= |stack| && forall i | 0 <= i < |windows| :: IsIntro(levels, stack[|stack| - 1 - i], windows[i])
  }

  method EnclosingHeading(levels: seq<nat>, k: nat) returns (start: nat, level: nat)
    requires 1 <= k <= |levels|
    ensures level == 0 ==> start == 1 && forall i: nat | i <= k :: !HeadingAt(levels, i)
    ensures level > 0 ==> Heads(levels, start, k) && level == Level(levels, start)
  {
    var j := k;
    while j > 0
      invariant 0 <= j <= k
      invariant forall i: nat | j < i <= k :: !HeadingAt(levels, i)
    {
      if HeadingAt(levels, j) {
        return j, Level(levels, j);
      }
      j := j - 1;
    }
    return 1, 0;
  }

  // The entry of the stack that comes before the ones found so far.
  lemma NextOuter(levels: seq<nat>, k: nat, stack: seq<nat>, p: nat, j: nat)
    requires Nested(levels, stack) && HoldsSections(levels, stack, k)
    requires 0 <= p < |stack| && j < stack[p] <= k && (p > 0 ==> stack[p - 1] <= j)
    requires forall i: nat | j < i <= k && HeadingAt(levels, i) :: Level(levels, i) >= Level(levels, stack[p])
    ensures HeadingAt(levels, j) && Level(levels, j) < Level(levels, stack[p]) <==> p > 0 && stack[p - 1] == j
    ensures Level(levels, stack[p]) <= 1 ==> p == 0
  {
    if HeadingAt(levels, j) && Level(levels, j) < Level(levels, stack[p]) {
      assert InSection(levels, j, k);
      assert Contains(stack, j);
    }
    if p > 0 {
      assert Contains(stack, stack[p - 1]);
      assert InSection(levels, stack[p - 1], k);
    }
  }

  lemma StackTop(levels: seq<nat>, k: nat, stack: seq<nat>, start: nat)
    requires IsStack(levels, stack, k) && Heads(levels, start, k)
    ensures stack != [] && stack[|stack| - 1] == start
  {
    assert InSection(levels, start, k);
    assert Contains(stack, start);
    var top := stack[|stack| - 1];
    assert Contains(stack, top);
    assert InSection(levels, top, k);
  }

  lemma NoHeadingNoStack(levels: seq<nat>, k: nat, stack: seq<nat>)
    requires IsStack(levels, stack, k) && forall i: nat | i <= k :: !HeadingAt(levels, i)
    ensures stack == []
  {
    assert stack != [] ==> Contains(stack, stack[0]);
    assert forall h: nat :: Contains(stack, h) ==> InSection(levels, h, k);
  }

  // Scans backwards for headings of ever smaller level, stopping at level 1.
  method SectionEscapeWindows(levels: seq<nat>, k: nat) returns (windows: seq<Window>)
    requires 1 <= k <= |levels|
    ensures AreWindows(levels, k, windows)
  {
    ghost var stack := OpenSections(levels, k);
    OpenIffInSection(levels, k);
    var start, level := EnclosingHeading(levels, k);
    var next := NextHeadingAfter(levels, start);
    windows := [Window(start, next - 1)];
    if level == 0 {
      NoHeadingNoStack(levels, k, stack);
      return;
    }
    StackTop(levels, k, stack, start);
    windows := AncestorIntros(levels, k, stack, start, windows);
  }

  // The same for the lines of a file.
  method EscapeWindows(lines: seq<string>, k: nat) returns (windows: seq<Window>)
    requires 1 <= k <= |lines|
    ensures AreWindows(Levels(lines), k, windows)
  {
    windows := SectionEscapeWindows(Levels(lines), k);
  }

  method AncestorIntros(levels: seq<nat>, k: nat, ghost stack: seq<nat>, start: nat, own: seq<Window>)
    returns (windows: seq<Window>)
    requires 1 <= k <= |levels| && IsStack(levels, stack, k) && Heads(levels, start, k)
    requires stack != [] && stack[|stack| - 1] == start && |own| == 1 && IsIntro(levels, start, own[0])
    ensures |windows| == |stack| && IntrosOf(levels, stack, windows)
  {
    windows := own;
    ghost var p := |stack| - 1;
    var cur, j := Level(levels, start), start - 1;
    while j > 0 && cur > 1
      invariant 0 <= j < start
      invariant 0 <= p < |stack| && |windows| == |stack| - p && cur == Level(levels, stack[p])
      invariant IntrosOf(levels, stack, windows)
      invariant j < stack[p] <= k && (p > 0 ==> stack[p - 1] <= j)
      invariant forall i: nat | j < i <= k && HeadingAt(levels, i) :: Level(levels, i) >= cur
      decreases j
    {
      NextOuter(levels, k, stack, p, j);
      if HeadingAt(levels, j) && Level(levels, j) < cur {
        var next := NextHeadingAfter(levels, j);
        windows := windows + [Window(j, next - 1)];
        cur := Level(levels, j);
        p := p - 1;
      }
      j := j - 1;
    }
    NextOuter(levels, k, stack, p, j);
  }

  // ----- What the windows cover -----

  predicate InWindow(w: Window, x: nat) {
    w.first <= x <= w.last
  }

  predicate Covered(windows: seq<Window>, x: nat) {
    exists i | 0 <= i < |windows| :: InWindow(windows[i], x)
  }

  // A line of an intro window is headed by that window's heading.
  lemma IntroHeads(levels: seq<nat>, h: nat, w: Window, x: nat)
    requires HeadingAt(levels, h) && IsIntro(levels, h, w)
    ensures InWindow(w, x) <==> x <= |levels| && Heads(levels, h, x)
  {
  }

  // A line is searched for line k exactly when the nearest heading above it (or
  // at it) heads a section that contains k: so never for a heading of a sibling
  // section.  Before the first heading there is one window, up to it.
  lemma WindowsCover(levels: seq<nat>, k: nat, windows: seq<Window>, x: nat)
    requires 1 <= k <= |levels| && 1 <= x <= |levels| && AreWindows(levels, k, windows)
    ensures (exists h: nat :: Heads(levels, h, k)) ==>
              (Covered(windows, x) <==> exists h: nat :: Heads(levels, h, x) && InSection(levels, h, k))
    ensures (forall h: nat :: !Heads(levels, h, k)) ==>
              (Covered(windows, x) <==> forall h: nat :: !Heads(levels, h, x))
  {
    var stack := OpenSections(levels, k);
    OpenIffInSection(levels, k);
    if h: nat :| Heads(levels, h, k) {
      StackTop(levels, k, stack, h);
      CoveredBySections(levels, k, stack, windows, x);
    } else {
      assert forall i: nat | i <= k :: !HeadingAt(levels, i) by {
        NoHeads(levels, k);
      }
      NoHeadingNoStack(levels, k, stack);
      assert Covered(windows, x) <==> InWindow(windows[0], x);
      if InWindow(windows[0], x) {
        assert forall h: nat :: !Heads(levels, h, x);
      } else {
        var next := windows[0].last + 1;
        assert HeadingAt(levels, next);
        SomeHeads(levels, next, x);
      }
    }
  }

  lemma SomeHeads(levels: seq<nat>, i: nat, x: nat)
    requires HeadingAt(levels, i) && i <= x
    ensures exists h: nat :: Heads(levels, h, x)
    decreases x
  {
    if HeadingAt(levels, x) {
      assert Heads(levels, x, x);
    } else {
      SomeHeads(levels, i, x - 1);
      var h: nat :| Heads(levels, h, x - 1);
      assert Heads(levels, h, x);
    }
  }

  lemma NoHeads(levels: seq<nat>, k: nat)
    requires forall h: nat :: !Heads(levels, h, k)
    ensures forall i: nat | i <= k :: !HeadingAt(levels, i)
  {
    if i: nat :| i <= k && HeadingAt(levels, i) {
      SomeHeads(levels, i, k);
    }
  }

  lemma CoveredBySections(levels: seq<nat>, k: nat, stack: seq<nat>, windows: seq<Window>, x: nat)
    requires IsStack(levels, stack, k) && IntrosOf(levels, stack, windows) && |windows| == |stack| && 1 <= x <= |levels|
    ensures Covered(windows, x) <==> exists h: nat :: Heads(levels, h, x) && InSection(levels, h, k)
  {
    forall i | 0 <= i < |windows|
      ensures InWindow(windows[i], x) <==> Heads(levels, stack[|stack| - 1 - i], x)
    {
      assert Contains(stack, stack[|stack| - 1 - i]);
      IntroHeads(levels, stack[|stack| - 1 - i], windows[i], x);
    }
    if Covered(windows, x) {
      var i :| 0 <= i < |windows| && InWindow(windows[i], x);
      assert Contains(stack, stack[|stack| - 1 - i]);
    }
    if h: nat :| Heads(levels, h, x) && InSection(levels, h, k) {
      assert Contains(stack, h);
      var p :| 0 <= p < |stack| && stack[p] == h;
      assert InWindow(windows[|stack| - 1 - p], x);
    }
  }

  // No line is searched twice, and the first window holds the line itself.
  lemma WindowsDisjoint(levels: seq<nat>, k: nat, windows: seq<Window>)
    requires 1 <= k <= |levels| && AreWindows(levels, k, windows)
    ensures windows != [] && InWindow(windows[0], k)
    ensures forall i, j | 0 <= i < j < |windows| :: windows[j].last < windows[i].first
  {
    var stack := OpenSections(levels, k);
    OpenIffInSection(levels, k);
    if stack != [] {
      var top := stack[|stack| - 1];
      assert Contains(stack, top);
      SomeHeads(levels, top, k);
      var h: nat :| Heads(levels, h, k);
      StackTop(levels, k, stack, h);
      IntroHeads(levels, h, windows[0], k);
      forall i, j | 0 <= i < j < |windows| ensures windows[j].last < windows[i].first {
        assert Contains(stack, stack[|stack| - 1 - i]) && Contains(stack, stack[|stack| - 1 - j]);
        assert IsIntro(levels, stack[|stack| - 1 - j], windows[j]);
      }
    } else {
      if h: nat :| Heads(levels, h, k) {
        StackTop(levels, k, stack, h);
      }
      NoHeads(levels, k);
    }
  }

  // ----- Lean code fences -----

  // A line that opens a Lean fence is a fence line too: it also closes one.
  datatype FenceLine = Plain | LeanOpen | OtherFence

  // Whether a Lean fence is open after the first k lines.
  predicate FenceOpen(lines: seq<FenceLine>, k: nat) {
    if k == 0 || k > |lines| then false
    else if FenceOpen(lines, k - 1) then lines[k - 1] == Plain
    else lines[k - 1] == LeanOpen
  }

  predicate IsFenceBody(lines: seq<FenceLine>, x: nat) {
    1 <= x <= |lines| && lines[x - 1] == Plain && FenceOpen(lines, x - 1)
  }

  // The blocks are the maximal runs of lines read inside a Lean fence, in order;
  // an unterminated fence runs to the end and an empty one is left out.
  method LeanFenceBlocks(lines: seq<FenceLine>) returns (blocks: seq<Window>)
    ensures forall x: nat :: Covered(blocks, x) <==> IsFenceBody(lines, x)
    ensures forall i | 0 <= i < |blocks| :: 1 <= blocks[i].first <= blocks[i].last
    ensures forall i, j | 0 <= i < j < |blocks| :: blocks[i].last + 1 < blocks[j].first
  {
    blocks := [];
    var i := 0;
    while i < |lines|
      invariant 0 <= i <= |lines| + 1
      invariant i <= |lines| ==> !FenceOpen(lines, i)
      invariant forall x: nat :: Covered(blocks, x) <==> x <= i && IsFenceBody(lines, x)
      invariant forall b | 0 <= b < |blocks| :: 1 <= blocks[b].first <= blocks[b].last <= i
      invariant forall a, b | 0 <= a < b < |blocks| :: blocks[a].last + 1 < blocks[b].first
    {
      if lines[i] == LeanOpen {
        var j := i + 1;
        while j < |lines| && lines[j] == Plain
          invariant i < j <= |lines|
          invariant forall x: nat | i < x <= j :: FenceOpen(lines, x)
          invariant forall x: nat | i + 1 < x <= j :: IsFenceBody(lines, x)
        {
          assert FenceOpen(lines, j) && IsFenceBody(lines, j + 1);
          j := j + 1;
        }
        ghost var was := blocks;
        if j > i + 1 {
          blocks := blocks + [Window(i + 2, j)];
          CoveredByOneMore(was, Window(i + 2, j));
        }
        assert forall x: nat | i < x <= j + 1 && IsFenceBody(lines, x) :: i + 2 <= x <= j;
        i := j + 1;
      } else {
        assert !IsFenceBody(lines, i + 1);
        i := i + 1;
      }
    }
  }

  lemma CoveredByOneMore(windows: seq<Window>, w: Window)
    ensures forall x: nat :: Covered(windows + [w], x) <==> Covered(windows, x) || InWindow(w, x)
  {
    forall x: nat ensures Covered(windows + [w], x) <==> Covered(windows, x) || InWindow(w, x) {
      if i :| 0 <= i < |windows| && InWindow(windows[i], x) {
        assert InWindow((windows + [w])[i], x);
      }
      assert InWindow(w, x) ==> InWindow((windows + [w])[|windows|], x);
    }
  }
}
