/** Declaration boundaries of a comment-stripped Lean file, as
    scripts/check_gates.py finds them, and the boundary a line is attributed to.

    A line is the sequence of its tokens: maximal runs of identifier characters
    (letters, digits, `_`, `.`, `<`, `>`), whole `@[...]` attributes, and other
    characters.  Consecutive words are therefore separated by white space. */
module Declarations {
  import opened Options

  datatype Token = Word(text: string) | Attribute | Symbol

  type Line = seq<Token>

  const LOOKAHEAD: nat := 6

  predicate IsPrefixWord(t: Token) {
    t == Word("set_option") || t == Word("open") || t == Word("variable")
  }

  predicate IsIn(t: Token) {
    t == Word("in")
  }

  predicate IsModifier(t: Token) {
    t.Word? && t.text in {"private", "protected", "noncomputable", "partial", "scoped", "unsafe"}
  }

  const KEYWORDS: seq<string> :=
    ["inductive", "structure", "def", "class", "instance", "theorem", "lemma", "axiom", "opaque",
     "example", "macro", "elab"]

  // The first keyword the word begins with: the pattern does not ask for the
  // keyword to end there, so `definition` reads as `def`.
  function KeywordOf(text: string, keywords: seq<string>): (kind: Option<string>)
    ensures kind.Some? ==> kind.value in keywords && kind.value <= text
    ensures kind.None? ==> forall k | k in keywords :: !(k <= text)
  {
    if keywords == [] then None
    else if keywords[0] <= text then Some(keywords[0])
    else
      assert keywords == [keywords[0]] + keywords[1..];
      KeywordOf(text, keywords[1..])
  }

  // ----- Prefix clauses -----

  // Everything after the first `in`; the whole line when there is none.
  function AfterIn(s: Line): (rest: Option<Line>)
    ensures rest.Some? ==> |rest.value| < |s|
  {
    if s == [] then None
    else if IsIn(s[0]) then Some(s[1..])
    else AfterIn(s[1..])
  }

  // Drops leading `set_option/open/variable ... in` clauses.
  function StripPrefixes(s: Line): (rest: Line)
    ensures |rest| <= |s|
    decreases |s|
  {
    if s == [] || !IsPrefixWord(s[0]) || AfterIn(s[1..]).None? then s
    else StripPrefixes(AfterIn(s[1..]).value)
  }

  lemma {:induction false} AfterInConcat(a: Line, b: Line)
    requires AfterIn(a).Some?
    ensures AfterIn(a + b) == Some(AfterIn(a).value + b)
  {
    if IsIn(a[0]) {
      assert (a + b)[1..] == a[1..] + b;
    } else {
      AfterInConcat(a[1..], b);
      assert (a + b)[1..] == a[1..] + b;
    }
  }

  // Where the first lines hold nothing but prefix clauses, stripping them
  // together with the next line is stripping the next line.
  lemma {:induction false} StripConcat(a: Line, b: Line)
    requires StripPrefixes(a) == []
    ensures StripPrefixes(a + b) == StripPrefixes(b)
    decreases |a|
  {
    if a == [] {
      assert a + b == b;
    } else {
      assert (a + b)[1..] == a[1..] + b;
      AfterInConcat(a[1..], b);
      StripConcat(AfterIn(a[1..]).value, b);
    }
  }

  // ----- Declaration heads -----

  // The declaration keyword, the name after it on the same text, whether nothing
  // at all follows the match, and whether the word matched is the keyword itself.
  datatype Head = Head(kind: string, name: Option<string>, dangling: bool, whole: bool)

  function SkipAttributes(s: Line): Line {
    if s != [] && s[0].Attribute? then SkipAttributes(s[1..]) else s
  }

  function SkipModifiers(s: Line): Line {
    if s != [] && IsModifier(s[0]) then SkipModifiers(s[1..]) else s
  }

  function HeadOf(s: Line): Option<Head> {
    var t := SkipModifiers(SkipAttributes(s));
    if t == [] || !t[0].Word? then None
    else
      var kind := KeywordOf(t[0].text, KEYWORDS);
      if kind.None? then None
      else if t[0].text != kind.value then Some(Head(kind.value, None, false, false))
      else if |t| > 1 && t[1].Word? then Some(Head(kind.value, Some(t[1].text), |t| == 2, true))
      else Some(Head(kind.value, None, |t| == 1, true))
  }

  // ----- The lines that are heads, spelled out -----

  // A prefix word, anything but `in`, and `in`.
  predicate IsClause(s: Line) {
    && |s| >= 2
    && (s[0] == Word("set_option") || s[0] == Word("open") || s[0] == Word("variable"))
    && s[|s| - 1] == Word("in")
    && forall i | 0 < i < |s| - 1 :: s[i] != Word("in")
  }

  function Flat(clauses: seq<Line>): Line {
    if clauses == [] then [] else clauses[0] + Flat(clauses[1..])
  }

  predicate AreClauses(clauses: seq<Line>) {
    forall i | 0 <= i < |clauses| :: IsClause(clauses[i])
  }

  predicate AreAttributes(attributes: Line) {
    forall i | 0 <= i < |attributes| :: attributes[i] == Attribute
  }

  predicate AreModifiers(modifiers: Line) {
    forall i | 0 <= i < |modifiers| ::
      modifiers[i] in {Word("private"), Word("protected"), Word("noncomputable"), Word("partial"), Word("scoped"), Word("unsafe")}
  }

  // Prefix clauses, attributes, modifiers, a word that begins with a keyword, and
  // whatever follows it.
  datatype Spelling = Spelling(clauses: seq<Line>, attributes: Line, modifiers: Line, kind: string, word: string, rest: Line)

  predicate IsSpelling(line: Line, s: Spelling) {
    && AreClauses(s.clauses) && AreAttributes(s.attributes) && AreModifiers(s.modifiers)
    && s.kind in KEYWORDS && s.kind <= s.word
    && line == Flat(s.clauses) + (s.attributes + (s.modifiers + ([Word(s.word)] + s.rest)))
  }

  // Its head: named by the word that follows a whole keyword, if one does.
  predicate SpellsHead(s: Spelling, head: Head) {
    && head.kind == s.kind
    && (head.whole <==> s.word == s.kind)
    && head.name == (if s.word == s.kind && s.rest != [] && s.rest[0].Word? then Some(s.rest[0].text) else None)
    && (head.name.None? ==> (head.dangling <==> s.word == s.kind && s.rest == []))
  }

  lemma {:induction false} ClauseStripped(a: Line, b: Line)
    requires a != [] && IsIn(a[|a| - 1]) && forall i | 0 <= i < |a| - 1 :: !IsIn(a[i])
    ensures AfterIn(a + b) == Some(b)
  {
    if |a| > 1 {
      assert (a + b)[1..] == a[1..] + b;
      ClauseStripped(a[1..], b);
    } else {
      assert (a + b)[1..] == b;
    }
  }

  lemma {:induction false} ClausesStripped(clauses: seq<Line>, rest: Line)
    requires AreClauses(clauses) && (rest == [] || !IsPrefixWord(rest[0]))
    ensures StripPrefixes(Flat(clauses) + rest) == rest
    decreases |clauses|
  {
    if clauses == [] {
      assert Flat(clauses) + rest == rest;
    } else {
      var clause, others := clauses[0], Flat(clauses[1..]) + rest;
      assert Flat(clauses) + rest == clause + others;
      assert (clause + others)[1..] == clause[1..] + others;
      ClauseStripped(clause[1..], others);
      ClausesStripped(clauses[1..], rest);
    }
  }

  // What `AfterIn` cuts off is one clause.
  lemma {:induction false} CutIsClause(s: Line)
    requires AfterIn(s).Some?
    ensures var cut := s[..|s| - |AfterIn(s).value|];
            && cut != [] && s == cut + AfterIn(s).value && IsIn(cut[|cut| - 1])
            && forall i | 0 <= i < |cut| - 1 :: !IsIn(cut[i])
  {
    if !IsIn(s[0]) {
      CutIsClause(s[1..]);
      var rest := AfterIn(s).value;
      var inner := s[1..][..|s| - 1 - |rest|];
      assert s[..|s| - |rest|] == [s[0]] + inner;
    }
  }

  lemma FirstClause(s: Line) returns (clause: Line)
    requires s != [] && IsPrefixWord(s[0]) && AfterIn(s[1..]).Some?
    ensures IsClause(clause) && s == clause + AfterIn(s[1..]).value
  {
    var rest := AfterIn(s[1..]).value;
    CutIsClause(s[1..]);
    clause := [s[0]] + s[1..][..|s| - 1 - |rest|];
  }

  lemma FlatMore(clause: Line, others: seq<Line>, rest: Line)
    ensures Flat([clause] + others) + rest == clause + (Flat(others) + rest)
  {
    assert ([clause] + others)[1..] == others;
  }

  // Stripping takes off clauses and nothing else.
  lemma {:induction false} StrippedClauses(s: Line) returns (clauses: seq<Line>)
    ensures AreClauses(clauses) && s == Flat(clauses) + StripPrefixes(s)
    decreases |s|
  {
    clauses := [];
    if StripPrefixes(s) != s {
      var rest := AfterIn(s[1..]).value;
      var clause := FirstClause(s);
      var others := StrippedClauses(rest);
      clauses := [clause] + others;
      FlatMore(clause, others, StripPrefixes(rest));
    }
  }

  lemma {:induction false} AttributesSkipped(attributes: Line, rest: Line)
    requires AreAttributes(attributes) && (rest == [] || !rest[0].Attribute?)
    ensures SkipAttributes(attributes + rest) == rest
  {
    if attributes == [] {
      assert attributes + rest == rest;
    } else {
      assert (attributes + rest)[1..] == attributes[1..] + rest;
      AttributesSkipped(attributes[1..], rest);
    }
  }

  lemma {:induction false} ModifiersSkipped(modifiers: Line, rest: Line)
    requires AreModifiers(modifiers) && (rest == [] || !IsModifier(rest[0]))
    ensures SkipModifiers(modifiers + rest) == rest
  {
    if modifiers == [] {
      assert modifiers + rest == rest;
    } else {
      assert (modifiers + rest)[1..] == modifiers[1..] + rest;
      ModifiersSkipped(modifiers[1..], rest);
    }
  }

  lemma {:induction false} SkippedAttributes(s: Line) returns (attributes: Line)
    ensures AreAttributes(attributes) && s == attributes + SkipAttributes(s)
  {
    attributes := [];
    if s != [] && s[0].Attribute? {
      var others := SkippedAttributes(s[1..]);
      attributes := [s[0]] + others;
    }
  }

  lemma {:induction false} SkippedModifiers(s: Line) returns (modifiers: Line)
    ensures AreModifiers(modifiers) && s == modifiers + SkipModifiers(s)
  {
    modifiers := [];
    if s != [] && IsModifier(s[0]) {
      var others := SkippedModifiers(s[1..]);
      modifiers := [s[0]] + others;
    }
  }

  predicate Starts(s: string, a: char, b: char, c: char) {
    |s| >= 3 && s[0] == a && s[1] == b && s[2] == c
  }

  lemma KeywordStarts()
    ensures |KEYWORDS| == 12
    ensures Starts(KEYWORDS[0], 'i', 'n', 'd')
    ensures Starts(KEYWORDS[1], 's', 't', 'r')
    ensures Starts(KEYWORDS[2], 'd', 'e', 'f')
    ensures Starts(KEYWORDS[3], 'c', 'l', 'a')
    ensures Starts(KEYWORDS[4], 'i', 'n', 's')
    ensures Starts(KEYWORDS[5], 't', 'h', 'e')
    ensures Starts(KEYWORDS[6], 'l', 'e', 'm')
    ensures Starts(KEYWORDS[7], 'a', 'x', 'i')
    ensures Starts(KEYWORDS[8], 'o', 'p', 'a')
    ensures Starts(KEYWORDS[9], 'e', 'x', 'a')
    ensures Starts(KEYWORDS[10], 'm', 'a', 'c')
    ensures Starts(KEYWORDS[11], 'e', 'l', 'a')
  {
  }

  // No keyword begins another.
  lemma KeywordsApart(text: string, k: nat)
    requires k < |KEYWORDS| && KEYWORDS[k] <= text
    ensures KeywordOf(text, KEYWORDS) == Some(KEYWORDS[k])
  {
    KeywordStarts();
    assert Starts(text, KEYWORDS[k][0], KEYWORDS[k][1], KEYWORDS[k][2]);
    KeywordIs(text, KEYWORDS, k);
  }

  // No modifier and no prefix word begins with one.
  lemma KeywordIsNeither(text: string, k: nat)
    requires k < |KEYWORDS| && KEYWORDS[k] <= text
    ensures !IsModifier(Word(text)) && !IsPrefixWord(Word(text))
  {
    KeywordStarts();
    assert Starts(text, KEYWORDS[k][0], KEYWORDS[k][1], KEYWORDS[k][2]);
  }

  // ----- Boundaries, from what each line is -----

  // What the scan looks at in a line: nothing on it, nothing but prefix clauses,
  // the declaration head after them, the word it starts with.
  datatype Summary = Summary(blank: bool, consumed: bool, head: Option<Head>, first: Option<string>)

  function Summarise(line: Line): (r: Summary)
    ensures r.blank ==> r.consumed && r.first.None?
    ensures r.consumed ==> r.head.None?
  {
    var stripped := StripPrefixes(line);
    Summary(line == [], stripped == [], HeadOf(stripped), if line != [] && line[0].Word? then Some(line[0].text) else None)
  }

  function Summaries(lines: seq<Line>): (r: seq<Summary>)
    ensures |r| == |lines| && WellFormed(r)
  {
    seq(|lines|, i requires 0 <= i < |lines| => Summarise(lines[i]))
  }

  predicate WellFormed(lines: seq<Summary>) {
    forall i | 0 <= i < |lines| :: (lines[i].blank ==> lines[i].consumed) && (lines[i].consumed ==> lines[i].head.None?)
  }

  // The first word of the first line from k on that is not blank.
  function PeekName(lines: seq<Summary>, k: nat): Option<string>
    decreases |lines| - k
  {
    if k >= |lines| then None
    else if lines[k].blank then PeekName(lines, k + 1)
    else lines[k].first
  }

  // The name of a declaration whose keyword stands on line j: on the same line
  // or, when the line ends with the keyword, at the start of the next text.
  function NameOf(lines: seq<Summary>, head: Head, j: nat): Option<string> {
    if head.name.Some? then head.name
    else if head.kind != "example" && head.dangling then PeekName(lines, j + 1)
    else None
  }

  // A boundary at a line counted from 1; nameless ones are anonymous.
  datatype Decl = Decl(line: nat, kind: string, name: Option<string>)

  predicate HeadAt(lines: seq<Summary>, h: nat) {
    h < |lines| && lines[h].head.Some?
  }

  predicate AllConsumed(lines: seq<Summary>, from: nat, to: nat) {
    to <= |lines| && forall x | from <= x < to :: lines[x].consumed
  }

  function Horizon(lines: seq<Summary>, i: nat): nat {
    if i + LOOKAHEAD < |lines| then i + LOOKAHEAD else |lines|
  }

  // The first line from k on, before `end`, that holds more than prefix clauses.
  function NextText(lines: seq<Summary>, k: nat, end: nat): (j: nat)
    requires k <= end <= |lines|
    ensures k <= j <= end && AllConsumed(lines, k, j)
    ensures j < end ==> !lines[j].consumed
    decreases end - k
  {
    if k < end && lines[k].consumed then NextText(lines, k + 1, end) else k
  }

  // The line whose declaration the prefixes of line i belong to, if the
  // lookahead finds one.
  function Resolved(lines: seq<Summary>, i: nat): (j: Option<nat>)
    requires i < |lines|
    ensures j.Some? ==> i <= j.value && HeadAt(lines, j.value) && AllConsumed(lines, i, j.value)
  {
    var j := NextText(lines, i, Horizon(lines, i));
    if j < Horizon(lines, i) && lines[j].head.Some? then Some(j) else None
  }

  function DeclFor(lines: seq<Summary>, i: nat, j: nat): Decl
    requires HeadAt(lines, j)
  {
    var head := lines[j].head.value;
    Decl(i + 1, head.kind, NameOf(lines, head, j))
  }

  // One turn of the scan at line i: the boundary it opens, if any, and the line
  // it goes on from.
  datatype Turn = Turn(decl: Option<Decl>, next: nat)

  function TurnAt(lines: seq<Summary>, i: nat): Turn
    requires i < |lines|
  {
    if lines[i].consumed && !lines[i].blank then
      var j := Resolved(lines, i);
      if j.Some? then Turn(Some(DeclFor(lines, i, j.value)), j.value + 1)
      else Turn(Some(Decl(i + 1, "prefix", None)), i + 1)
    else if lines[i].head.Some? then Turn(Some(DeclFor(lines, i, i)), i + 1)
    else Turn(None, i + 1)
  }

  // The boundaries from line i on.
  function Boundaries(lines: seq<Summary>, i: nat): seq<Decl>
    decreases |lines| - i
  {
    if i >= |lines| then []
    else
      var turn := TurnAt(lines, i);
      if turn.next <= i then []
      else (if turn.decl.Some? then [turn.decl.value] else []) + Boundaries(lines, turn.next)
  }

  // Every line of this form is a head, of the keyword's kind, with that name.
  lemma SpelledIsHead(line: Line, s: Spelling)
    requires IsSpelling(line, s)
    ensures Summarise(line).head.Some? && SpellsHead(s, Summarise(line).head.value)
  {
    var fromWord := [Word(s.word)] + s.rest;
    var k :| 0 <= k < |KEYWORDS| && KEYWORDS[k] == s.kind;
    KeywordIsNeither(s.word, k);
    KeywordsApart(s.word, k);
    ClausesStripped(s.clauses, s.attributes + (s.modifiers + fromWord));
    AttributesSkipped(s.attributes, s.modifiers + fromWord);
    ModifiersSkipped(s.modifiers, fromWord);
    HeadFromWord(s.attributes + (s.modifiers + fromWord), fromWord, s);
  }

  lemma HeadFromWord(stripped: Line, fromWord: Line, s: Spelling)
    requires SkipModifiers(SkipAttributes(stripped)) == fromWord == [Word(s.word)] + s.rest
    requires KeywordOf(s.word, KEYWORDS) == Some(s.kind)
    ensures HeadOf(stripped).Some? && SpellsHead(s, HeadOf(stripped).value)
  {
    assert s.rest != [] ==> fromWord[1] == s.rest[0];
  }

  // And every head is a line of this form.
  lemma HeadIsSpelled(line: Line) returns (s: Spelling)
    requires Summarise(line).head.Some?
    ensures IsSpelling(line, s) && SpellsHead(s, Summarise(line).head.value)
  {
    var stripped := StripPrefixes(line);
    var clauses := StrippedClauses(line);
    var attributes := SkippedAttributes(stripped);
    var modifiers := SkippedModifiers(SkipAttributes(stripped));
    var fromWord := SkipModifiers(SkipAttributes(stripped));
    var kind := KeywordOf(fromWord[0].text, KEYWORDS).value;
    s := Spelling(clauses, attributes, modifiers, kind, fromWord[0].text, fromWord[1..]);
    assert fromWord == [Word(s.word)] + s.rest;
    HeadFromWord(stripped, fromWord, s);
  }

  // Nothing is left of a line exactly when it is clauses and nothing else.
  lemma ConsumedIffClauses(line: Line)
    ensures Summarise(line).consumed <==> exists clauses :: AreClauses(clauses) && line == Flat(clauses)
  {
    if Summarise(line).consumed {
      var clauses := StrippedClauses(line);
      assert line == Flat(clauses);
    }
    if clauses :| AreClauses(clauses) && line == Flat(clauses) {
      ClausesStripped(clauses, []);
      assert Flat(clauses) + [] == line;
    }
  }

  predicate NextNonBlank(lines: seq<Summary>, j: nat, k: nat) {
    j < k < |lines| && !lines[k].blank && forall x | j < x < k :: lines[x].blank
  }

  lemma {:induction false} PeekMeans(lines: seq<Summary>, j: nat, k: nat)
    ensures NextNonBlank(lines, j, k) ==> PeekName(lines, j + 1) == lines[k].first
    ensures (forall x | j < x < |lines| :: lines[x].blank) ==> PeekName(lines, j + 1) == None
    decreases |lines| - j
  {
    if j + 1 < |lines| && lines[j + 1].blank {
      PeekMeans(lines, j + 1, k);
    }
  }

  // The boundary opened at line i by the head on line j: its name stands behind
  // the keyword or, when nothing does, is the first word of the next line that is
  // not blank; an example left without one stays nameless.
  lemma DeclMeans(lines: seq<Summary>, i: nat, j: nat, k: nat)
    requires HeadAt(lines, j)
    ensures var d, head := DeclFor(lines, i, j), lines[j].head.value;
            && d.line == i + 1 && d.kind == head.kind
            && (head.name.Some? ==> d.name == head.name)
            && (head.name.None? && (head.kind == "example" || !head.dangling) ==> d.name == None)
            && (head.name.None? && head.kind != "example" && head.dangling ==>
                  && (NextNonBlank(lines, j, k) ==> d.name == lines[k].first)
                  && ((forall x | j < x < |lines| :: lines[x].blank) ==> d.name == None))
  {
    PeekMeans(lines, j, k);
  }

  // ----- The loops -----

  method FinishDecl(lines: seq<Line>, boundary: nat, head: Head, j: nat) returns (decl: Decl)
    ensures decl == Decl(boundary, head.kind, NameOf(Summaries(lines), head, j))
  {
    var name := head.name;
    if name.None? && head.kind != "example" && head.dangling {
      var k := j + 1;
      while k < |lines| && lines[k] == []
        invariant PeekName(Summaries(lines), j + 1) == PeekName(Summaries(lines), k)
      {
        k := k + 1;
      }
      if k < |lines| && lines[k][0].Word? {
        name := Some(lines[k][0].text);
      }
    }
    return Decl(boundary, head.kind, name);
  }

  // The bounded lookahead: lines are gathered into one buffer, which is stripped
  // afresh each time.
  method LookAhead(lines: seq<Line>, i: nat) returns (j: Option<nat>, head: Option<Head>)
    requires i < |lines| && StripPrefixes(lines[i]) == []
    ensures j == Resolved(Summaries(lines), i)
    ensures j.Some? ==> head == Summaries(lines)[j.value].head
  {
    ghost var all := Summaries(lines);
    var end := if i + LOOKAHEAD < |lines| then i + LOOKAHEAD else |lines|;
    var buffer: Line := [];
    var k := i;
    while k < end
      invariant i <= k <= end
      invariant StripPrefixes(buffer) == []
      invariant NextText(all, i, end) == NextText(all, k, end)
    {
      StripConcat(buffer, lines[k]);
      buffer := buffer + lines[k];
      var candidate := StripPrefixes(buffer);
      if candidate != [] {
        head := HeadOf(candidate);
        return if head.Some? then Some(k) else None, head;
      }
      k := k + 1;
    }
    return None, None;
  }

  method Step(lines: seq<Line>, i: nat) returns (decl: Option<Decl>, next: nat)
    requires i < |lines|
    ensures Turn(decl, next) == TurnAt(Summaries(lines), i)
  {
    var stripped := StripPrefixes(lines[i]);
    if stripped == [] && lines[i] != [] {
      var j, head := LookAhead(lines, i);
      if j.Some? {
        var named := FinishDecl(lines, i + 1, head.value, j.value);
        return Some(named), j.value + 1;
      }
      return Some(Decl(i + 1, "prefix", None)), i + 1;
    }
    var head := HeadOf(stripped);
    if head.Some? {
      var named := FinishDecl(lines, i + 1, head.value, i);
      return Some(named), i + 1;
    }
    return None, i + 1;
  }

  // `decls` are the boundaries before line i.
  predicate Collected(lines: seq<Summary>, i: nat, decls: seq<Decl>) {
    decls + Boundaries(lines, i) == Boundaries(lines, 0)
  }

  lemma TurnCollected(lines: seq<Summary>, i: nat, decls: seq<Decl>)
    requires WellFormed(lines) && i < |lines| && Collected(lines, i, decls)
    ensures var turn := TurnAt(lines, i);
            && i < turn.next <= |lines|
            && Collected(lines, turn.next, if turn.decl.Some? then decls + [turn.decl.value] else decls)
  {
    TurnFacts(lines, i);
    var turn := TurnAt(lines, i);
    var rest := Boundaries(lines, turn.next);
    assert turn.decl.Some? ==> decls + ([turn.decl.value] + rest) == (decls + [turn.decl.value]) + rest;
    assert decls + ([] + rest) == decls + rest;
  }

  method CollectDeclarations(lines: seq<Line>) returns (decls: seq<Decl>)
    ensures decls == Boundaries(Summaries(lines), 0)
  {
    ghost var all := Summaries(lines);
    decls := [];
    var i := 0;
    while i < |lines|
      invariant 0 <= i <= |lines| && Collected(all, i, decls)
      decreases |lines| - i
    {
      TurnCollected(all, i, decls);
      var decl, next := Step(lines, i);
      if decl.Some? {
        decls := decls + [decl.value];
      }
      i := next;
    }
    assert decls + Boundaries(all, i) == decls;
  }

  predicate Increasing(decls: seq<Decl>) {
    forall a, b | 0 <= a < b < |decls| :: decls[a].line < decls[b].line
  }

  predicate IsNearest(decls: seq<Decl>, line: nat, best: Option<Decl>) {
    match best
    case None => forall d | d in decls :: d.line > line
    case Some(d) => d in decls && d.line <= line && forall e | e in decls && e.line <= line :: e.line <= d.line
  }

  // The scan stops at the first boundary below the line.
  method EnclosingDecl(decls: seq<Decl>, line: nat) returns (best: Option<Decl>)
    ensures Increasing(decls) ==> IsNearest(decls, line, best)
  {
    best := None;
    var i := 0;
    while i < |decls|
      invariant 0 <= i <= |decls|
      invariant best == if i == 0 then None else Some(decls[i - 1])
      invariant forall k | 0 <= k < i :: decls[k].line <= line
    {
      if decls[i].line > line {
        return;
      }
      best := Some(decls[i]);
      i := i + 1;
    }
  }

  // ----- What attribution can rely on -----

  // The declaration headed on line h (from 0) is decl by d: only prefix
  // clauses and blank lines stand between d's line and h.
  predicate Opens(lines: seq<Summary>, d: Decl, h: nat) {
    HeadAt(lines, h) && 1 <= d.line <= h + 1 && d == DeclFor(lines, d.line - 1, h) && AllConsumed(lines, d.line - 1, h)
  }

  // A boundary at prefix clauses that lead to no declaration within the lookahead.
  predicate IsStray(lines: seq<Summary>, d: Decl) {
    && 1 <= d.line <= |lines| && d == Decl(d.line, "prefix", None)
    && lines[d.line - 1].consumed && !lines[d.line - 1].blank && Resolved(lines, d.line - 1) == None
  }

  // A turn goes forward; it skips no head but the one its boundary opens.
  lemma TurnFacts(lines: seq<Summary>, i: nat)
    requires WellFormed(lines) && i < |lines|
    ensures var turn := TurnAt(lines, i);
            && i < turn.next <= |lines|
            && (turn.decl.Some? ==> turn.decl.value.line == i + 1)
            && (turn.decl.Some? ==> Opens(lines, turn.decl.value, turn.next - 1) || IsStray(lines, turn.decl.value))
            && (forall h | i <= h < turn.next && HeadAt(lines, h) :: turn.decl.Some? && Opens(lines, turn.decl.value, h))
  {
  }

  lemma {:induction false} BoundariesIncrease(lines: seq<Summary>, i: nat)
    requires WellFormed(lines)
    ensures Increasing(Boundaries(lines, i))
    ensures forall d | d in Boundaries(lines, i) :: i < d.line <= |lines|
    decreases |lines| - i
  {
    if i < |lines| {
      TurnFacts(lines, i);
      BoundariesIncrease(lines, TurnAt(lines, i).next);
    }
  }

  predicate OpensNearest(lines: seq<Summary>, decls: seq<Decl>, d: Decl, h: nat) {
    d in decls && Opens(lines, d, h) && forall e | e in decls && e.line <= h + 1 :: e.line <= d.line
  }

  // No line the head pattern matches is skipped, by the prefix lookahead or otherwise.
  lemma {:induction false} HeadsOpenBoundaries(lines: seq<Summary>, i: nat, h: nat)
    requires WellFormed(lines) && i <= h && HeadAt(lines, h)
    ensures exists d :: OpensNearest(lines, Boundaries(lines, i), d, h)
    decreases |lines| - i
  {
    TurnFacts(lines, i);
    var turn := TurnAt(lines, i);
    BoundariesIncrease(lines, turn.next);
    if h < turn.next {
      assert OpensNearest(lines, Boundaries(lines, i), turn.decl.value, h);
    } else {
      HeadsOpenBoundaries(lines, turn.next, h);
      var d :| OpensNearest(lines, Boundaries(lines, turn.next), d, h);
      assert OpensNearest(lines, Boundaries(lines, i), d, h);
    }
  }

  // Line i opens the head on line j, at most five lines below: there are prefix
  // clauses on it and nothing but such and blank lines from there to j, or it is j.
  predicate CanOpen(lines: seq<Summary>, i: nat, j: nat) {
    i <= j && j - i <= 5 && (i == j || (PrefixLine(lines, i) && AllConsumed(lines, i, j)))
  }

  // The first line that can.
  predicate OpensFirst(lines: seq<Summary>, i: nat, j: nat) {
    CanOpen(lines, i, j) && forall x: nat | x < i :: !CanOpen(lines, x, j)
  }

  lemma {:induction false} NextTextFound(lines: seq<Summary>, i: nat, end: nat, j: nat)
    requires i <= j < end <= |lines| && AllConsumed(lines, i, j) && !lines[j].consumed
    ensures NextText(lines, i, end) == j
    decreases j - i
  {
    if i < j {
      NextTextFound(lines, i + 1, end, j);
    }
  }

  lemma TurnBefore(lines: seq<Summary>, i: nat, p: nat, j: nat)
    requires WellFormed(lines) && HeadAt(lines, j) && OpensFirst(lines, p, j) && i <= p
    ensures var turn := TurnAt(lines, i);
            if i == p then turn.decl == Some(DeclFor(lines, p, j)) else turn.next <= p
  {
    assert !lines[j].consumed;
    if i == p {
      if p < j {
        NextTextFound(lines, p, Horizon(lines, p), j);
      }
    } else if lines[i].consumed && !lines[i].blank {
      var x := Resolved(lines, i);
      if x.Some? && x.value >= p {
        assert !lines[x.value].consumed;
        assert x.value == j;
        assert CanOpen(lines, i, j);
      }
    }
  }

  // Which line a head is attributed to: the first one from which the lookahead of
  // six lines, over prefix clauses and blank lines alone, still finds it.
  lemma {:induction false} HeadOpenedFrom(lines: seq<Summary>, i: nat, p: nat, j: nat)
    requires WellFormed(lines) && HeadAt(lines, j) && OpensFirst(lines, p, j) && i <= p
    ensures DeclFor(lines, p, j) in Boundaries(lines, i)
    decreases |lines| - i
  {
    TurnFacts(lines, i);
    TurnBefore(lines, i, p, j);
    if i < p {
      HeadOpenedFrom(lines, TurnAt(lines, i).next, p, j);
    }
  }

  lemma ResolvedWithin(lines: seq<Summary>, i: nat, p: nat)
    requires WellFormed(lines) && PrefixLine(lines, p) && i <= p && Resolved(lines, i).Some?
    ensures p <= Resolved(lines, i).value ==> CanOpen(lines, p, Resolved(lines, i).value)
  {
    assert !lines[Resolved(lines, i).value].consumed;
  }

  // Prefix clauses from which the lookahead finds no head open a boundary of
  // their own.
  lemma {:induction false} StrayBoundary(lines: seq<Summary>, i: nat, p: nat)
    requires WellFormed(lines) && PrefixLine(lines, p) && i <= p
    requires forall j: nat | HeadAt(lines, j) :: !CanOpen(lines, p, j)
    ensures Decl(p + 1, "prefix", None) in Boundaries(lines, i)
    decreases |lines| - i
  {
    TurnFacts(lines, i);
    if Resolved(lines, i).Some? {
      ResolvedWithin(lines, i, p);
    }
    if i < p {
      StrayBoundary(lines, TurnAt(lines, i).next, p);
    }
  }

  // Every boundary opens a line the head pattern matches, or stands at prefix
  // clauses that lead to none.
  lemma {:induction false} BoundariesJustified(lines: seq<Summary>, i: nat, d: Decl)
    requires WellFormed(lines) && d in Boundaries(lines, i)
    ensures (exists h: nat :: Opens(lines, d, h)) || IsStray(lines, d)
    decreases |lines| - i
  {
    TurnFacts(lines, i);
    var turn := TurnAt(lines, i);
    if turn.decl != Some(d) {
      BoundariesJustified(lines, turn.next, d);
    }
  }

  // An occurrence on a line the head pattern matches is attributed to the boundary
  // that opens that line, never to an earlier one.
  lemma HeadAttributedToItself(lines: seq<Line>, h: nat, best: Option<Decl>)
    requires HeadAt(Summaries(lines), h) && IsNearest(Boundaries(Summaries(lines), 0), h + 1, best)
    ensures best.Some? && Opens(Summaries(lines), best.value, h)
  {
    var all := Summaries(lines);
    HeadsOpenBoundaries(all, 0, h);
    var d :| OpensNearest(all, Boundaries(all, 0), d, h);
    BoundariesIncrease(all, 0);
    assert d in Boundaries(all, 0) && d.line <= h + 1;
    SameLineSameDecl(Boundaries(all, 0), d, best.value);
  }

  lemma SameLineSameDecl(decls: seq<Decl>, d: Decl, e: Decl)
    requires Increasing(decls) && d in decls && e in decls && d.line == e.line
    ensures d == e
  {
    var a :| 0 <= a < |decls| && decls[a] == d;
    var b :| 0 <= b < |decls| && decls[b] == e;
  }

  // ----- Who an occurrence is attributed to -----

  // The line declares something: the word at its head is a keyword.
  predicate RealHead(lines: seq<Summary>, h: nat) {
    HeadAt(lines, h) && lines[h].head.value.whole
  }

  // The line only looks like a head: its word goes on after the keyword, as
  // `classical` or `definition` does.
  predicate FalseHead(lines: seq<Summary>, h: nat) {
    HeadAt(lines, h) && !lines[h].head.value.whole
  }

  // The line holds prefix clauses and nothing else.
  predicate PrefixLine(lines: seq<Summary>, p: nat) {
    p < |lines| && lines[p].consumed && !lines[p].blank
  }

  predicate NearestRealHead(lines: seq<Summary>, h: nat, l: nat) {
    h <= l && RealHead(lines, h) && forall x: nat | h < x <= l :: !RealHead(lines, x)
  }

  predicate OpenedBy(lines: seq<Summary>, best: Option<Decl>, h: nat) {
    best.Some? && Opens(lines, best.value, h)
  }

  // The boundary stands at prefix clauses after h that lead to nothing up to
  // line l: to a later line, or nowhere within the lookahead.
  ghost predicate AtPrefix(lines: seq<Summary>, best: Option<Decl>, h: nat, l: nat) {
    && best.Some? && best.value.line > h + 1 && PrefixLine(lines, best.value.line - 1)
    && forall x: nat | x <= l :: !Opens(lines, best.value, x)
  }

  // A prefix line belongs to a boundary that stands at prefix clauses, with
  // nothing else between, and that is the nearest one to it.
  predicate CoversPrefix(lines: seq<Summary>, decls: seq<Decl>, d: Decl, p: nat) {
    && d in decls && 1 <= d.line <= p + 1 && PrefixLine(lines, d.line - 1) && AllConsumed(lines, d.line - 1, p)
    && forall e | e in decls && e.line <= p + 1 :: e.line <= d.line
  }

  lemma {:induction false} PrefixLinesCovered(lines: seq<Summary>, i: nat, p: nat)
    requires WellFormed(lines) && i <= p && PrefixLine(lines, p)
    ensures exists d :: CoversPrefix(lines, Boundaries(lines, i), d, p)
    decreases |lines| - i
  {
    TurnFacts(lines, i);
    var turn := TurnAt(lines, i);
    BoundariesIncrease(lines, turn.next);
    if p < turn.next {
      assert CoversPrefix(lines, Boundaries(lines, i), turn.decl.value, p);
    } else {
      PrefixLinesCovered(lines, turn.next, p);
      var d :| CoversPrefix(lines, Boundaries(lines, turn.next), d, p);
      assert CoversPrefix(lines, Boundaries(lines, i), d, p);
    }
  }

  predicate IsMark(lines: seq<Summary>, x: nat) {
    HeadAt(lines, x) || PrefixLine(lines, x)
  }

  // Boundaries stand only at heads and at prefix lines.
  lemma {:induction false} BoundariesAtMarks(lines: seq<Summary>, i: nat, d: Decl)
    requires WellFormed(lines) && d in Boundaries(lines, i)
    ensures 1 <= d.line <= |lines| && IsMark(lines, d.line - 1)
    decreases |lines| - i
  {
    TurnFacts(lines, i);
    var turn := TurnAt(lines, i);
    if turn.decl != Some(d) {
      BoundariesAtMarks(lines, turn.next, d);
    }
  }

  predicate LastMark(lines: seq<Summary>, m: nat, l: nat) {
    m <= l && IsMark(lines, m) && forall x: nat | m < x <= l :: !IsMark(lines, x)
  }

  // The boundary of a line is settled by the last head or prefix line at or
  // above it, a head that only looks like one included.
  lemma LastMarkDecides(lines: seq<Summary>, m: nat, l: nat, best: Option<Decl>)
    requires WellFormed(lines) && LastMark(lines, m, l)
    requires IsNearest(Boundaries(lines, 0), l + 1, best)
    ensures best.Some? && best.value.line <= m + 1
    ensures HeadAt(lines, m) ==> Opens(lines, best.value, m)
    ensures PrefixLine(lines, m) ==> CoversPrefix(lines, Boundaries(lines, 0), best.value, m)
  {
    var decls := Boundaries(lines, 0);
    var d;
    if HeadAt(lines, m) {
      HeadsOpenBoundaries(lines, 0, m);
      d :| OpensNearest(lines, decls, d, m);
    } else {
      PrefixLinesCovered(lines, 0, m);
      d :| CoversPrefix(lines, decls, d, m);
    }
    forall e | e in decls && e.line <= l + 1 ensures e.line <= d.line {
      BoundariesAtMarks(lines, 0, e);
    }
    BoundariesIncrease(lines, 0);
    assert d in decls && d.line <= l + 1;
    SameLineSameDecl(decls, d, best.value);
  }

  lemma LastMarkFrom(lines: seq<Summary>, h: nat, l: nat) returns (m: nat)
    requires h <= l && IsMark(lines, h)
    ensures h <= m && LastMark(lines, m, l)
  {
    m := l;
    while !IsMark(lines, m)
      invariant h <= m <= l && forall x: nat | m < x <= l :: !IsMark(lines, x)
      decreases m
    {
      m := m - 1;
    }
  }

  lemma OpensOne(lines: seq<Summary>, d: Decl, h: nat, x: nat)
    requires WellFormed(lines) && Opens(lines, d, h) && Opens(lines, d, x)
    ensures h == x
  {
    assert !lines[h].consumed && !lines[x].consumed;
    assert AllConsumed(lines, d.line - 1, h) && AllConsumed(lines, d.line - 1, x);
  }

  lemma PrefixOpensLater(lines: seq<Summary>, decls: seq<Decl>, d: Decl, p: nat, h: nat)
    requires WellFormed(lines) && CoversPrefix(lines, decls, d, p) && PrefixLine(lines, p)
    requires HeadAt(lines, h) && h <= p
    ensures d.line > h + 1 && !Opens(lines, d, h)
  {
    assert !lines[h].consumed && AllConsumed(lines, d.line - 1, p);
  }

  // An occurrence on line l is attributed to the nearest declaration h at or above
  // it exactly when, after h and up to l, no line only looks like a head and none
  // holds prefix clauses alone.
  lemma AttributedIff(lines: seq<Summary>, h: nat, l: nat, best: Option<Decl>)
    requires WellFormed(lines) && NearestRealHead(lines, h, l)
    requires IsNearest(Boundaries(lines, 0), l + 1, best)
    ensures OpenedBy(lines, best, h) <==> forall x: nat | h < x <= l :: !FalseHead(lines, x) && !PrefixLine(lines, x)
  {
    var m := LastMarkFrom(lines, h, l);
    LastMarkDecides(lines, m, l, best);
    assert forall x: nat | FalseHead(lines, x) || PrefixLine(lines, x) :: IsMark(lines, x);
    if m > h && HeadAt(lines, m) {
      assert !RealHead(lines, m) && FalseHead(lines, m);
      if OpenedBy(lines, best, h) {
        OpensOne(lines, best.value, h, m);
      }
    } else if m > h {
      PrefixOpensLater(lines, Boundaries(lines, 0), best.value, m, h);
    }
  }

  // Prefix clauses go with what follows them, so standing at them takes nothing
  // from h.  What takes an occurrence from its declaration is exactly a line that
  // only looks like a head and has no prefix clauses after it.
  lemma NotTakenIff(lines: seq<Summary>, h: nat, l: nat, best: Option<Decl>)
    requires WellFormed(lines) && NearestRealHead(lines, h, l)
    requires IsNearest(Boundaries(lines, 0), l + 1, best)
    ensures OpenedBy(lines, best, h) || AtPrefix(lines, best, h, l) <==>
            forall f: nat | h < f <= l && FalseHead(lines, f) :: exists p: nat | f < p <= l :: PrefixLine(lines, p)
  {
    var m := LastMarkFrom(lines, h, l);
    LastMarkDecides(lines, m, l, best);
    assert forall x: nat | HeadAt(lines, x) || PrefixLine(lines, x) :: IsMark(lines, x);
    if HeadAt(lines, m) {
      assert m > h ==> !RealHead(lines, m) && FalseHead(lines, m);
      if OpenedBy(lines, best, h) {
        OpensOne(lines, best.value, h, m);
      }
    } else {
      forall x: nat | x <= l && HeadAt(lines, x) ensures !Opens(lines, best.value, x) && best.value.line > x + 1 {
        assert IsMark(lines, x);
        PrefixOpensLater(lines, Boundaries(lines, 0), best.value, m, x);
      }
    }
  }

  // A line has no boundary exactly when no head and no prefix line is at or above it.
  lemma UnattributedIff(lines: seq<Summary>, l: nat, best: Option<Decl>)
    requires WellFormed(lines) && IsNearest(Boundaries(lines, 0), l + 1, best)
    ensures best.None? <==> forall x: nat | x <= l :: !IsMark(lines, x)
  {
    if x: nat :| x <= l && IsMark(lines, x) {
      var m := LastMarkFrom(lines, x, l);
      LastMarkDecides(lines, m, l, best);
    } else if best.Some? {
      BoundariesAtMarks(lines, 0, best.value);
    }
  }

  lemma {:induction false} KeywordIs(text: string, keywords: seq<string>, k: nat)
    requires k < |keywords| && keywords[k] <= text
    requires forall j | 0 <= j < k :: !(keywords[j] <= text)
    ensures KeywordOf(text, keywords) == Some(keywords[k])
  {
    if k > 0 {
      KeywordIs(text, keywords[1..], k - 1);
    }
  }

  predicate StartsPlainly(line: Line) {
    line != [] && line[0].Word? && !IsPrefixWord(line[0]) && !IsModifier(line[0])
  }

  // A line that starts with a plain word, by whether a keyword begins it.
  lemma PlainLine(line: Line)
    requires StartsPlainly(line)
    ensures Summarise(line) == Summary(false, false, HeadOf(line), Some(line[0].text))
    ensures var kind := KeywordOf(line[0].text, KEYWORDS);
            if kind.None? then HeadOf(line) == None
            else if line[0].text == kind.value then HeadOf(line).Some? && HeadOf(line).value.whole
            else HeadOf(line) == Some(Head(kind.value, None, false, false))
  {
  }

  // A line that only begins with a keyword takes the occurrence below it from
  // the declaration above it.
  lemma FalseHeadTakes(a: Line, b: Line, c: Line, kind: string, best: Option<Decl>)
    requires StartsPlainly(a) && StartsPlainly(b) && StartsPlainly(c)
    requires KeywordOf(a[0].text, KEYWORDS) == Some(a[0].text)
    requires KeywordOf(b[0].text, KEYWORDS) == Some(kind) && b[0].text != kind
    requires KeywordOf(c[0].text, KEYWORDS) == None
    requires IsNearest(Boundaries(Summaries([a, b, c]), 0), 3, best)
    ensures best == Some(Decl(2, kind, None)) && NearestRealHead(Summaries([a, b, c]), 0, 2)
  {
    PlainLine(a);
    PlainLine(b);
    PlainLine(c);
    FromTwoLines(Summaries([a, b, c]), best);
  }

  const THEOREM_FOO: Line := [Word("theorem"), Word("foo")]
  const CLASSICAL: Line := [Word("classical")]
  const NATIVE_DECIDE: Line := [Word("native_decide")]

  // As the tactic `classical` does in a proof.
  lemma ClassicalTakesOccurrence(best: Option<Decl>)
    requires IsNearest(Boundaries(Summaries([THEOREM_FOO, CLASSICAL, NATIVE_DECIDE]), 0), 3, best)
    ensures best == Some(Decl(2, "class", None))
    ensures NearestRealHead(Summaries([THEOREM_FOO, CLASSICAL, NATIVE_DECIDE]), 0, 2)
  {
    KeywordsMatched();
    StartPlainly();
    FalseHeadTakes(THEOREM_FOO, CLASSICAL, NATIVE_DECIDE, "class", best);
  }

  lemma StartPlainly()
    ensures StartsPlainly(THEOREM_FOO) && StartsPlainly(CLASSICAL) && StartsPlainly(NATIVE_DECIDE)
  {
    assert THEOREM_FOO[0].text[0] == 't' && CLASSICAL[0].text[0] == 'c' && |NATIVE_DECIDE[0].text| == 13;
  }

  lemma FromTwoLines(lines: seq<Summary>, best: Option<Decl>)
    requires WellFormed(lines) && |lines| == 3 && IsNearest(Boundaries(lines, 0), 3, best)
    requires RealHead(lines, 0) && FalseHead(lines, 1) && !IsMark(lines, 2)
    ensures best == Some(DeclFor(lines, 1, 1)) && NearestRealHead(lines, 0, 2)
  {
    assert LastMark(lines, 1, 2);
    LastMarkDecides(lines, 1, 2, best);
    assert !lines[0].consumed;
    assert AllConsumed(lines, best.value.line - 1, 1);
  }

  lemma KeywordsMatched()
    ensures KeywordOf("theorem", KEYWORDS) == Some("theorem")
    ensures KeywordOf("classical", KEYWORDS) == Some("class")
    ensures KeywordOf("native_decide", KEYWORDS) == None
  {
    TheoremMatched("theorem");
    ClassicalMatched("classical");
    NoneWithN("native_decide");
  }

  lemma TheoremMatched(text: string)
    requires text == "theorem"
    ensures KeywordOf(text, KEYWORDS) == Some("theorem")
  {
    KeywordsApart(text, 5);
  }

  lemma ClassicalMatched(text: string)
    requires text == "classical"
    ensures KeywordOf(text, KEYWORDS) == Some("class")
  {
    KeywordsApart(text, 3);
  }

  lemma NoneWithN(text: string)
    requires text != "" && text[0] == 'n'
    ensures KeywordOf(text, KEYWORDS) == None
  {
    forall k | 0 <= k < |KEYWORDS| ensures !(KEYWORDS[k] <= text) {
      NoneStartsWithN(k);
    }
    NoKeyword(text, KEYWORDS);
  }

  lemma NoneStartsWithN(k: nat)
    requires k < |KEYWORDS|
    ensures KEYWORDS[k] != "" && KEYWORDS[k][0] != 'n'
  {
    KeywordStarts();
  }

  lemma {:induction false} NoKeyword(text: string, keywords: seq<string>)
    requires forall k | 0 <= k < |keywords| :: !(keywords[k] <= text)
    ensures KeywordOf(text, keywords) == None
  {
    if keywords != [] {
      NoKeyword(text, keywords[1..]);
    }
  }
}
