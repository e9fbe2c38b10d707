/** The two comment strippers: strip_comments of scripts/check_gates.py, which
    knows no strings, and the string-aware one of
    scripts/check_verification_authority.py.  Both blank what they strip, so that
    line numbers stay aligned. */
module Comments {
  import opened Text

  datatype Mode = Code | Line | Block(depth: nat) | Str

  // One move of a stripper: what it emits, over as many characters of the text,
  // and the mode it goes on in.
  datatype Move = Move(piece: string, mode: Mode)

  function Blank(c: char): string {
    if c == '\n' then "\n" else " "
  }

  function Outer(depth: nat): Mode {
    if depth <= 1 then Code else Block(depth - 1)
  }

  // The move at character c; d is the one after it, or a newline at the end of
  // the text, where no two-character marker can start.
  function Scan(c: char, d: char, m: Mode): (move: Move)
    requires m != Str
    ensures move.mode != Str && (|move.piece| == 1 || (|move.piece| == 2 && d != '\n'))
  {
    match m
    case Line => Move(Blank(c), if c == '\n' then Code else Line)
    case Block(n) =>
      if c == '/' && d == '-' then Move("  ", Block(n + 1))
      else if c == '-' && d == '/' then Move("  ", Outer(n))
      else Move(Blank(c), m)
    case Code =>
      if c == '-' && d == '-' then Move("  ", Line)
      else if c == '/' && d == '-' then Move("  ", Block(1))
      else Move([c], Code)
  }

  function ScanAware(c: char, d: char, last: bool, m: Mode): (move: Move)
    ensures |move.piece| == 1 || (|move.piece| == 2 && (d != '\n' || !last))
  {
    match m
    case Str =>
      if c == '"' then Move(" ", Code)
      else if c == '\\' && !last then Move("  ", Str)
      else Move(Blank(c), Str)
    case _ =>
      if m == Code && c == '"' then Move(" ", Str) else Scan(c, d, m)
  }

  function Second(t: string): char {
    if |t| >= 2 then t[1] else '\n'
  }

  // What becomes of the rest `t` of a text, read in the given mode.
  function Strip(t: string, m: Mode): string
    requires m != Str
    decreases |t|
  {
    if t == "" then ""
    else
      var move := Scan(t[0], Second(t), m);
      move.piece + Strip(t[|move.piece|..], move.mode)
  }

  function StripAware(t: string, m: Mode): string
    decreases |t|
  {
    if t == "" then ""
    else
      var move := ScanAware(t[0], Second(t), |t| == 1, m);
      move.piece + StripAware(t[|move.piece|..], move.mode)
  }

  // ----- The loops -----

  // `out` is what the text before i became, and m is the mode it left.
  predicate Stripped(text: string, i: nat, m: Mode, out: string) {
    i <= |text| && m != Str && out + Strip(text[i..], m) == Strip(text, Code)
  }

  function After(text: string, i: nat): char {
    if i + 1 < |text| then text[i + 1] else '\n'
  }

  lemma StripStep(text: string, i: nat, m: Mode, out: string)
    requires i < |text| && m != Str && Stripped(text, i, m, out)
    ensures var move := Scan(text[i], After(text, i), m);
            i + |move.piece| <= |text| && Stripped(text, i + |move.piece|, move.mode, out + move.piece)
  {
    var move := Scan(text[i], After(text, i), m);
    assert text[i..][|move.piece|..] == text[i + |move.piece|..];
    assert out + (move.piece + Strip(text[i + |move.piece|..], move.mode)) == (out + move.piece) + Strip(text[i + |move.piece|..], move.mode);
  }

  function ModeOf(depth: nat, inLine: bool): (m: Mode)
    ensures m != Str
  {
    if inLine then Line else if depth > 0 then Block(depth) else Code
  }

  method Advance(c: char, d: char, depth: nat, inLine: bool) returns (piece: string, depth': nat, inLine': bool)
    requires inLine ==> depth == 0
    ensures inLine' ==> depth' == 0
    ensures Scan(c, d, ModeOf(depth, inLine)) == Move(piece, ModeOf(depth', inLine'))
  {
    piece, depth', inLine' := [c], depth, inLine;
    if inLine {
      inLine' := c != '\n';
      piece := Blank(c);
    } else if depth > 0 {
      if c == '/' && d == '-' {
        depth' := depth + 1;
        piece := "  ";
      } else if c == '-' && d == '/' {
        depth' := depth - 1;
        piece := "  ";
      } else {
        piece := Blank(c);
      }
    } else if c == '-' && d == '-' {
      inLine' := true;
      piece := "  ";
    } else if c == '/' && d == '-' {
      depth' := depth + 1;
      piece := "  ";
    }
  }

  method StripComments(text: string) returns (out: string)
    ensures out == Strip(text, Code)
  {
    out := "";
    var i, depth, inLine := 0, 0, false;
    assert text[0..] == text;
    while i < |text|
      invariant 0 <= i <= |text| && (inLine ==> depth == 0)
      invariant Stripped(text, i, ModeOf(depth, inLine), out)
      decreases |text| - i
    {
      StripStep(text, i, ModeOf(depth, inLine), out);
      var piece;
      piece, depth, inLine := Advance(text[i], After(text, i), depth, inLine);
      out := out + piece;
      i := i + |piece|;
    }
  }

  function Spaces(n: nat): string {
    seq(n, _ => ' ')
  }

  predicate StrippedAware(text: string, i: nat, m: Mode, out: string) {
    i <= |text| && out + StripAware(text[i..], m) == StripAware(text, Code)
  }

  lemma AwareStep(text: string, i: nat, m: Mode, out: string)
    requires i < |text| && StrippedAware(text, i, m, out)
    ensures var move := ScanAware(text[i], After(text, i), i + 1 == |text|, m);
            i + |move.piece| <= |text| && StrippedAware(text, i + |move.piece|, move.mode, out + move.piece)
  {
    var move := ScanAware(text[i], After(text, i), i + 1 == |text|, m);
    assert text[i..][|move.piece|..] == text[i + |move.piece|..];
    assert out + (move.piece + StripAware(text[i + |move.piece|..], move.mode))
        == (out + move.piece) + StripAware(text[i + |move.piece|..], move.mode);
  }

  lemma SpacesJoin(out: string, a: nat, b: nat)
    ensures (out + Spaces(a)) + Spaces(b) == out + Spaces(a + b)
  {
  }

  predicate IsLineEnd(text: string, i: nat, end: nat) {
    i <= end <= |text| && (forall k | i <= k < end :: text[k] != '\n') && (end == |text| || text[end] == '\n')
  }

  lemma {:induction false} AwareRestOfLine(text: string, i: nat, end: nat, out: string)
    requires IsLineEnd(text, i, end) && StrippedAware(text, i, Line, out)
    ensures StrippedAware(text, end, Code, out + Spaces(end - i))
    decreases end - i
  {
    if i < end {
      AwareStep(text, i, Line, out);
      assert " " == Spaces(1);
      AwareRestOfLine(text, i + 1, end, out + Spaces(1));
      SpacesJoin(out, 1, end - (i + 1));
    } else {
      assert out + Spaces(0) == out;
      assert StripAware(text[end..], Line) == StripAware(text[end..], Code);
    }
  }

  lemma AwareDashes(text: string, i: nat, out: string)
    requires i + 1 < |text| && text[i] == text[i + 1] == '-' && StrippedAware(text, i, Code, out)
    ensures StrippedAware(text, i + 2, Line, out + Spaces(2))
  {
    AwareStep(text, i, Code, out);
    assert "  " == Spaces(2);
  }

  // A line comment in one go, dashes included.
  lemma AwareLineComment(text: string, i: nat, end: nat, out: string)
    requires i + 1 < |text| && text[i] == text[i + 1] == '-' && StrippedAware(text, i, Code, out)
    requires IsLineEnd(text, i, end)
    ensures StrippedAware(text, end, Code, out + Spaces(end - i))
  {
    AwareDashes(text, i, out);
    AwareRestOfLine(text, i + 2, end, out + Spaces(2));
    SpacesJoin(out, 2, end - (i + 2));
  }

  method FindLineEnd(text: string, i: nat) returns (end: nat)
    requires i <= |text|
    ensures IsLineEnd(text, i, end)
  {
    end := i;
    while end < |text| && text[end] != '\n'
      invariant i <= end <= |text|
      invariant forall k | i <= k < end :: text[k] != '\n'
    {
      end := end + 1;
    }
  }

  function ModeAware(depth: nat, inString: bool): Mode {
    if inString then Str else if depth > 0 then Block(depth) else Code
  }

  // One turn of the loop, away from the start of a line comment.
  method AdvanceAware(c: char, d: char, last: bool, depth: nat, inString: bool)
    returns (piece: string, depth': nat, inString': bool)
    requires inString ==> depth == 0
    requires c == d == '-' ==> inString || depth > 0
    ensures inString' ==> depth' == 0
    ensures ScanAware(c, d, last, ModeAware(depth, inString)) == Move(piece, ModeAware(depth', inString'))
  {
    piece, depth', inString' := [c], depth, inString;
    if depth == 0 && c == '"' {
      inString' := !inString;
      piece := " ";
    } else if inString {
      piece := if c == '\\' && !last then "  " else Blank(c);
    } else if c == '/' && d == '-' {
      depth' := depth + 1;
      piece := "  ";
    } else if depth > 0 && c == '-' && d == '/' {
      depth' := depth - 1;
      piece := "  ";
    } else if depth > 0 {
      piece := Blank(c);
    }
  }

  lemma AwareAtEnds(text: string, m: Mode, out: string)
    ensures StrippedAware(text, 0, Code, "")
    ensures StrippedAware(text, |text|, m, out) ==> out == StripAware(text, Code)
  {
    assert text[0..] == text && text[|text|..] == "";
  }

  method StripCommentsAware(text: string) returns (out: string)
    ensures out == StripAware(text, Code)
  {
    out := "";
    var i, depth, inString := 0, 0, false;
    AwareAtEnds(text, Code, "");
    while i < |text|
      invariant 0 <= i <= |text| && (inString ==> depth == 0)
      invariant StrippedAware(text, i, ModeAware(depth, inString), out)
      decreases |text| - i
    {
      if depth == 0 && !inString && text[i] == After(text, i) == '-' {
        var end := FindLineEnd(text, i);
        AwareLineComment(text, i, end, out);
        out := out + Spaces(end - i);
        i := end;
      } else {
        AwareStep(text, i, ModeAware(depth, inString), out);
        var piece;
        piece, depth, inString := AdvanceAware(text[i], After(text, i), i + 1 == |text|, depth, inString);
        out := out + piece;
        i := i + |piece|;
      }
    }
    AwareAtEnds(text, ModeAware(depth, inString), out);
  }

  // ----- Shape -----

  predicate HasMarkerAt(t: string, k: nat) {
    k + 1 < |t| && t[k + 1] == '-' && (t[k] == '-' || t[k] == '/')
  }

  predicate NoMarkers(t: string) {
    forall k: nat | k < |t| :: !HasMarkerAt(t, k)
  }

  // Each character is kept, or is blanked and was no newline.
  predicate KeptOrBlanked(t: string, out: string) {
    && |out| == |t|
    && (forall k | 0 <= k < |t| :: out[k] == t[k] || out[k] == ' ')
    && (forall k | 0 <= k < |t| && t[k] == '\n' :: out[k] == '\n')
  }

  lemma PrependNoMarkers(piece: string, out: string)
    requires piece != "" && NoMarkers(piece) && NoMarkers(out)
    requires out != "" && out[0] == '-' ==> piece[|piece| - 1] != '-' && piece[|piece| - 1] != '/'
    ensures NoMarkers(piece + out)
  {
    forall k: nat | k < |piece + out| ensures !HasMarkerAt(piece + out, k) {
      assert k + 1 < |piece| ==> !HasMarkerAt(piece, k);
      assert k >= |piece| ==> !HasMarkerAt(out, k - |piece|);
    }
  }

  // What one move keeps, whichever stripper makes it.
  predicate MoveShape(t: string, m: Mode, move: Move) {
    && 1 <= |move.piece| <= |t| && NoMarkers(move.piece)
    && (forall k | 0 <= k < |move.piece| :: move.piece[k] == t[k] || move.piece[k] == ' ')
    && (move.piece[0] == '-' ==> t[0] == '-' && m == Code)
    && (|move.piece| < |t| && t[|move.piece|] == '-' && move.mode == Code ==>
          move.piece[|move.piece| - 1] != '-' && move.piece[|move.piece| - 1] != '/')
  }

  lemma ScanShape(t: string, m: Mode)
    requires t != "" && m != Str
    ensures var move := Scan(t[0], Second(t), m);
            MoveShape(t, m, move) && forall k | 0 <= k < |move.piece| :: t[k] == '\n' ==> move.piece[k] == '\n'
  {
  }

  lemma ScanAwareShape(t: string, m: Mode)
    requires t != ""
    ensures var move := ScanAware(t[0], Second(t), |t| == 1, m);
            MoveShape(t, m, move) && forall k | 0 <= k < |move.piece| :: move.piece[k] != '"'
  {
  }

  lemma PrependShape(t: string, m: Mode, move: Move, out: string)
    requires MoveShape(t, m, move) && |out| == |t| - |move.piece| && NoMarkers(out)
    requires forall k | 0 <= k < |out| :: out[k] == t[|move.piece| + k] || out[k] == ' '
    requires out != "" && out[0] == '-' ==> t[|move.piece|] == '-' && move.mode == Code
    ensures |move.piece + out| == |t| && NoMarkers(move.piece + out)
    ensures forall k | 0 <= k < |t| :: (move.piece + out)[k] == t[k] || (move.piece + out)[k] == ' '
    ensures (move.piece + out)[0] == '-' ==> t[0] == '-' && m == Code
  {
    PrependNoMarkers(move.piece, out);
    forall k | 0 <= k < |t| ensures (move.piece + out)[k] == t[k] || (move.piece + out)[k] == ' ' {
      if k >= |move.piece| {
        assert (move.piece + out)[k] == out[k - |move.piece|];
      }
    }
  }

  // Stripping keeps the length and every newline, blanks or keeps every other
  // character, and leaves no comment marker.
  lemma {:induction false} StripShape(t: string, m: Mode)
    requires m != Str
    ensures KeptOrBlanked(t, Strip(t, m)) && NoMarkers(Strip(t, m))
    ensures Strip(t, m) != "" && Strip(t, m)[0] == '-' ==> t[0] == '-' && m == Code
    decreases |t|
  {
    if t != "" {
      var move := Scan(t[0], Second(t), m);
      var rest := t[|move.piece|..];
      ScanShape(t, m);
      StripShape(rest, move.mode);
      var out := Strip(rest, move.mode);
      assert forall k | 0 <= k < |out| :: out[k] == rest[k] || out[k] == ' ';
      PrependShape(t, m, move, out);
      forall k | 0 <= k < |t| && t[k] == '\n' ensures (move.piece + out)[k] == '\n' {
        if k >= |move.piece| {
          assert rest[k - |move.piece|] == '\n';
        }
      }
    }
  }

  // A text without markers is left alone.
  lemma {:induction false} StripPlain(t: string)
    requires NoMarkers(t)
    ensures Strip(t, Code) == t
  {
    if t != "" {
      assert !HasMarkerAt(t, 0);
      forall k: nat | k < |t[1..]| ensures !HasMarkerAt(t[1..], k) {
        assert !HasMarkerAt(t, k + 1);
      }
      StripPlain(t[1..]);
      assert [t[0]] + t[1..] == t;
    }
  }

  // Exactly the texts without markers are left alone, so stripping twice is
  // stripping once.
  lemma StripFixes(t: string)
    ensures Strip(t, Code) == t <==> NoMarkers(t)
    ensures Strip(Strip(t, Code), Code) == Strip(t, Code)
  {
    StripShape(t, Code);
    StripPlain(Strip(t, Code));
    if NoMarkers(t) {
      StripPlain(t);
    }
  }

  // ----- Block comments nest -----

  // What stands between the markers of a block comment.
  datatype Inner = End | Char(c: char, rest: Inner) | Nested(inner: Inner, rest: Inner)

  function Open(t: string): string {
    "/-" + t
  }

  function Close(t: string): string {
    "-/" + t
  }

  function Gap(t: string): string {
    "  " + t
  }

  function Render(b: Inner): string {
    match b
    case End => ""
    case Char(c, rest) => [c] + Render(rest)
    case Nested(inner, rest) => Open(Render(inner) + Close(Render(rest)))
  }

  // No plain character reads as the start of a marker, given what comes after.
  predicate ReadsPlainly(b: Inner, after: string) {
    match b
    case End => true
    case Char(c, rest) =>
      var d := Second([c] + (Render(rest) + after));
      !(c == '/' && d == '-') && !(c == '-' && d == '/') && ReadsPlainly(rest, after)
    case Nested(inner, rest) =>
      ReadsPlainly(inner, Close(Render(rest) + after)) && ReadsPlainly(rest, after)
  }

  function BlankInner(b: Inner): string {
    match b
    case End => ""
    case Char(c, rest) => Blank(c) + BlankInner(rest)
    case Nested(inner, rest) => Gap(BlankInner(inner) + Gap(BlankInner(rest)))
  }

  predicate IsBlankOf(blank: string, t: string) {
    |blank| == |t| && forall k | 0 <= k < |t| :: blank[k] == if t[k] == '\n' then '\n' else ' '
  }

  lemma BlankConcat(x: string, t: string, y: string, u: string)
    requires IsBlankOf(x, t) && IsBlankOf(y, u)
    ensures IsBlankOf(x + y, t + u)
  {
  }

  // Blanking an inner text blanks every character of it but the newlines.
  lemma {:induction false} BlankInnerBlanks(b: Inner)
    ensures IsBlankOf(BlankInner(b), Render(b))
    decreases b
  {
    match b
    case End =>
    case Char(c, rest) =>
      BlankInnerBlanks(rest);
      BlankConcat(Blank(c), [c], BlankInner(rest), Render(rest));
    case Nested(inner, rest) =>
      BlankInnerBlanks(inner);
      BlankInnerBlanks(rest);
      BlankConcat("  ", "-/", BlankInner(rest), Render(rest));
      BlankConcat(BlankInner(inner), Render(inner), Gap(BlankInner(rest)), Close(Render(rest)));
      BlankConcat("  ", "/-", BlankInner(inner) + Gap(BlankInner(rest)), Render(inner) + Close(Render(rest)));
  }

  // What becomes of a text under either stripper.
  function Read(aware: bool, t: string, m: Mode): string
    requires m != Str
  {
    if aware then StripAware(t, m) else Strip(t, m)
  }

  // Away from the quotes in code both move alike.
  lemma ReadStep(aware: bool, t: string, m: Mode)
    requires t != "" && m != Str && !(aware && m == Code && t[0] == '"')
    ensures var move := Scan(t[0], Second(t), m);
            Read(aware, t, m) == move.piece + Read(aware, t[|move.piece|..], move.mode)
  {
  }

  lemma StripOpen(aware: bool, t: string, depth: nat)
    ensures Read(aware, Open(t), Block(depth)) == Gap(Read(aware, t, Block(depth + 1)))
    ensures Read(aware, Open(t), Code) == Gap(Read(aware, t, Block(1)))
  {
    assert Open(t)[2..] == t;
    ReadStep(aware, Open(t), Block(depth));
    ReadStep(aware, Open(t), Code);
  }

  lemma StripClose(aware: bool, t: string, depth: nat)
    ensures Read(aware, Close(t), Block(depth)) == Gap(Read(aware, t, Outer(depth)))
  {
    assert Close(t)[2..] == t;
    ReadStep(aware, Close(t), Block(depth));
  }

  lemma StripInnerChar(aware: bool, c: char, rest: string, depth: nat)
    requires !(c == '/' && Second([c] + rest) == '-') && !(c == '-' && Second([c] + rest) == '/')
    ensures Read(aware, [c] + rest, Block(depth)) == Blank(c) + Read(aware, rest, Block(depth))
  {
    ReadStep(aware, [c] + rest, Block(depth));
    assert ([c] + rest)[1..] == rest;
  }

  lemma Associate(a: string, b: string, c: string)
    ensures (a + b) + c == a + (b + c)
  {
  }

  lemma MarkersAssociate(a: string, b: string, t: string)
    ensures Open(a + Close(b)) + t == Open(a + Close(b + t))
    ensures Gap(a + Gap(b)) + t == Gap(a + Gap(b + t))
  {
  }

  // Reading an inner text inside a block comment blanks it and changes nothing else.
  predicate ReadsThrough(aware: bool, b: Inner, after: string, depth: nat) {
    Read(aware, Render(b) + after, Block(depth)) == BlankInner(b) + Read(aware, after, Block(depth))
  }

  lemma NestedReadsThrough(aware: bool, inner: Inner, rest: Inner, after: string, depth: nat)
    requires depth >= 1
    requires ReadsThrough(aware, inner, Close(Render(rest) + after), depth + 1) && ReadsThrough(aware, rest, after, depth)
    ensures ReadsThrough(aware, Nested(inner, rest), after, depth)
  {
    var tail := Render(rest) + after;
    MarkersAssociate(Render(inner), Render(rest), after);
    StripOpen(aware, Render(inner) + Close(tail), depth);
    StripClose(aware, tail, depth + 1);
    MarkersAssociate(BlankInner(inner), BlankInner(rest), Read(aware, after, Block(depth)));
  }

  lemma CharReadsThrough(aware: bool, c: char, rest: Inner, after: string, depth: nat)
    requires ReadsPlainly(Char(c, rest), after) && ReadsThrough(aware, rest, after, depth)
    ensures ReadsThrough(aware, Char(c, rest), after, depth)
  {
    Associate([c], Render(rest), after);
    StripInnerChar(aware, c, Render(rest) + after, depth);
    Associate(Blank(c), BlankInner(rest), Read(aware, after, Block(depth)));
  }

  lemma {:induction false} InnerReadsThrough(aware: bool, b: Inner, after: string, depth: nat)
    requires depth >= 1 && ReadsPlainly(b, after)
    ensures ReadsThrough(aware, b, after, depth)
    decreases b
  {
    match b
    case End => assert Render(b) + after == after;
    case Char(c, rest) =>
      InnerReadsThrough(aware, rest, after, depth);
      CharReadsThrough(aware, c, rest, after, depth);
    case Nested(inner, rest) =>
      InnerReadsThrough(aware, inner, Close(Render(rest) + after), depth + 1);
      InnerReadsThrough(aware, rest, after, depth);
      NestedReadsThrough(aware, inner, rest, after, depth);
  }

  // A block comment, however deep comments nest in it, is blanked as a whole,
  // and what follows its last marker is read as code again.
  lemma BlockCommentBlanked(aware: bool, b: Inner, rest: string)
    requires ReadsPlainly(b, Close(rest))
    ensures Read(aware, Open(Render(b) + Close(rest)), Code) == Gap(BlankInner(b) + Gap(Read(aware, rest, Code)))
  {
    StripOpen(aware, Render(b) + Close(rest), 0);
    InnerReadsThrough(aware, b, Close(rest), 1);
    StripClose(aware, rest, 1);
  }

  // A block comment the text ends in: comments closed in it, then either the end
  // or a comment inside it that is not closed either.
  datatype Tail = Last(inner: Inner) | Deeper(inner: Inner, rest: Tail)

  function RenderTail(b: Tail): string {
    match b
    case Last(inner) => Render(inner)
    case Deeper(inner, rest) => Render(inner) + Open(RenderTail(rest))
  }

  function BlankTail(b: Tail): string {
    match b
    case Last(inner) => BlankInner(inner)
    case Deeper(inner, rest) => BlankInner(inner) + Gap(BlankTail(rest))
  }

  predicate TailReadsPlainly(b: Tail) {
    match b
    case Last(inner) => ReadsPlainly(inner, "")
    case Deeper(inner, rest) => ReadsPlainly(inner, Open(RenderTail(rest))) && TailReadsPlainly(rest)
  }

  lemma {:induction false} TailReadsThrough(aware: bool, b: Tail, depth: nat)
    requires depth >= 1 && TailReadsPlainly(b)
    ensures Read(aware, RenderTail(b), Block(depth)) == BlankTail(b)
    decreases b
  {
    match b
    case Last(inner) =>
      InnerReadsThrough(aware, inner, "", depth);
      assert Render(inner) + "" == Render(inner);
      assert Read(aware, "", Block(depth)) == "";
      assert BlankInner(inner) + "" == BlankInner(inner);
    case Deeper(inner, rest) =>
      InnerReadsThrough(aware, inner, Open(RenderTail(rest)), depth);
      StripOpen(aware, RenderTail(rest), depth);
      TailReadsThrough(aware, rest, depth + 1);
  }

  // A comment that is never closed is blanked to the end of the text.
  lemma UnclosedCommentBlanked(aware: bool, b: Tail)
    requires TailReadsPlainly(b)
    ensures Read(aware, Open(RenderTail(b)), Code) == Gap(BlankTail(b))
  {
    StripOpen(aware, RenderTail(b), 0);
    TailReadsThrough(aware, b, 1);
  }

  // ----- Code and line comments -----

  lemma CodeChar(aware: bool, c: char, rest: string)
    requires rest != "" && rest[0] == '-' ==> c != '-' && c != '/'
    requires aware ==> c != '"'
    ensures Read(aware, [c] + rest, Code) == [c] + Read(aware, rest, Code)
  {
    ReadStep(aware, [c] + rest, Code);
    assert ([c] + rest)[1..] == rest;
  }

  lemma NoMarkersTail(t: string)
    requires t != "" && NoMarkers(t)
    ensures NoMarkers(t[1..]) && (|t| > 1 && t[1] == '-' ==> t[0] != '-' && t[0] != '/')
  {
    assert !HasMarkerAt(t, 0);
    forall k: nat | k < |t[1..]| ensures !HasMarkerAt(t[1..], k) {
      assert !HasMarkerAt(t, k + 1);
    }
  }

  lemma CodeCharJoins(aware: bool, c: char, code: string, rest: string)
    requires code + rest != "" && (code + rest)[0] == '-' ==> c != '-' && c != '/'
    requires aware ==> c != '"'
    requires Read(aware, code + rest, Code) == code + Read(aware, rest, Code)
    ensures Read(aware, [c] + code + rest, Code) == [c] + code + Read(aware, rest, Code)
  {
    CodeChar(aware, c, code + rest);
    Associate([c], code, rest);
    Associate([c], code, Read(aware, rest, Code));
  }

  // Code without markers is kept as it stands, up to whatever follows it.
  lemma {:induction false} CodeKept(aware: bool, code: string, rest: string)
    requires NoMarkers(code) && (aware ==> Without(code, '"'))
    requires code != "" && rest != "" && rest[0] == '-' ==> code[|code| - 1] != '-' && code[|code| - 1] != '/'
    ensures Read(aware, code + rest, Code) == code + Read(aware, rest, Code)
  {
    if code == "" {
      assert code + rest == rest;
    } else {
      NoMarkersTail(code);
      CodeKept(aware, code[1..], rest);
      CodeCharJoins(aware, code[0], code[1..], rest);
      assert [code[0]] + code[1..] == code;
    }
  }

  lemma LineChar(aware: bool, c: char, rest: string)
    requires c != '\n'
    ensures Read(aware, [c] + rest, Line) == Spaces(1) + Read(aware, rest, Line)
  {
    ReadStep(aware, [c] + rest, Line);
    assert ([c] + rest)[1..] == rest;
    assert " " == Spaces(1);
  }

  lemma {:induction false} RestOfLineBlanked(aware: bool, line: string, rest: string)
    requires Without(line, '\n') && (rest == "" || rest[0] == '\n')
    ensures Read(aware, line + rest, Line) == Spaces(|line|) + Read(aware, rest, Code)
  {
    if line == "" {
      assert line + rest == rest;
      if rest != "" {
        ReadStep(aware, rest, Line);
        ReadStep(aware, rest, Code);
      }
      assert Spaces(0) + Read(aware, rest, Code) == Read(aware, rest, Code);
    } else {
      RestOfLineBlanked(aware, line[1..], rest);
      LineCharJoins(aware, line[0], line[1..], rest);
      assert [line[0]] + line[1..] == line;
    }
  }

  lemma LineCharJoins(aware: bool, c: char, line: string, rest: string)
    requires c != '\n' && Read(aware, line + rest, Line) == Spaces(|line|) + Read(aware, rest, Code)
    ensures Read(aware, [c] + line + rest, Line) == Spaces(1 + |line|) + Read(aware, rest, Code)
  {
    LineChar(aware, c, line + rest);
    Associate([c], line, rest);
    Associate(Spaces(1), Spaces(|line|), Read(aware, rest, Code));
    SpacesJoin("", 1, |line|);
    assert "" + Spaces(1) == Spaces(1) && "" + Spaces(1 + |line|) == Spaces(1 + |line|);
  }

  // A line comment is blanked up to the end of its line, whatever it holds, and
  // reading goes on as code from the newline.
  lemma LineCommentBlanked(aware: bool, line: string, rest: string)
    requires Without(line, '\n') && (rest == "" || rest[0] == '\n')
    ensures Read(aware, ['-', '-'] + (line + rest), Code) == Spaces(2 + |line|) + Read(aware, rest, Code)
  {
    DashesRead(aware, line + rest);
    RestOfLineBlanked(aware, line, rest);
    Associate("  ", Spaces(|line|), Read(aware, rest, Code));
    assert "  " + Spaces(|line|) == Spaces(2 + |line|);
  }

  lemma DashesRead(aware: bool, rest: string)
    ensures Read(aware, ['-', '-'] + rest, Code) == "  " + Read(aware, rest, Line)
  {
    assert (['-', '-'] + rest)[2..] == rest;
    ReadStep(aware, ['-', '-'] + rest, Code);
  }

  // ----- The string-aware stripper, and where the two agree -----

  // Length kept; what is not kept is blanked; no quote and no marker is left.
  lemma {:induction false} AwareShape(t: string, m: Mode)
    ensures |StripAware(t, m)| == |t| && NoMarkers(StripAware(t, m)) && '"' !in StripAware(t, m)
    ensures forall k | 0 <= k < |t| :: StripAware(t, m)[k] == t[k] || StripAware(t, m)[k] == ' '
    ensures StripAware(t, m) != "" && StripAware(t, m)[0] == '-' ==> t[0] == '-' && m == Code
    decreases |t|
  {
    if t != "" {
      var move := ScanAware(t[0], Second(t), |t| == 1, m);
      var rest := t[|move.piece|..];
      ScanAwareShape(t, m);
      AwareShape(rest, move.mode);
      var out := StripAware(rest, move.mode);
      assert forall k | 0 <= k < |out| :: out[k] == rest[k] || out[k] == ' ';
      PrependShape(t, m, move, out);
    }
  }

  // Reading `t` from mode m, position k is reached inside a string and holds a
  // backslash with a newline after it.
  predicate EscapesNewline(t: string, m: Mode, k: nat)
    decreases |t|
  {
    && t != ""
    && if k == 0 then m == Str && t[0] == '\\' && Second(t) == '\n' && |t| >= 2
       else
         var move := ScanAware(t[0], Second(t), |t| == 1, m);
         |move.piece| <= k && EscapesNewline(t[|move.piece|..], move.mode, k - |move.piece|)
  }

  lemma EscapesAtMove(t: string, m: Mode, k: nat)
    requires k < |t| && t[k] == '\n'
    ensures var piece := ScanAware(t[0], Second(t), |t| == 1, m).piece;
            k < |piece| ==> (piece[k] != '\n' <==> k > 0 && EscapesNewline(t, m, k - 1))
  {
  }

  lemma EscapesLater(t: string, m: Mode, k: nat)
    requires t != "" && |ScanAware(t[0], Second(t), |t| == 1, m).piece| <= k < |t|
    ensures var move := ScanAware(t[0], Second(t), |t| == 1, m);
            var later := k - |move.piece|;
            (k > 0 && EscapesNewline(t, m, k - 1)) <==> (later > 0 && EscapesNewline(t[|move.piece|..], move.mode, later - 1))
  {
  }

  // A newline is blanked exactly when a backslash inside a string escapes it.
  lemma {:induction false} AwareNewline(t: string, m: Mode, k: nat)
    requires k < |t| && t[k] == '\n'
    ensures |StripAware(t, m)| == |t|
    ensures StripAware(t, m)[k] != '\n' <==> k > 0 && EscapesNewline(t, m, k - 1)
    decreases |t|
  {
    AwareShape(t, m);
    var move := ScanAware(t[0], Second(t), |t| == 1, m);
    if k < |move.piece| {
      EscapesAtMove(t, m, k);
    } else {
      EscapesLater(t, m, k);
      AwareNewline(t[|move.piece|..], move.mode, k - |move.piece|);
    }
  }

  predicate SameLines(t: string, out: string) {
    |out| == |t| && forall k: nat | k < |t| :: SameLineEnd(t, out, k)
  }

  predicate SameLineEnd(t: string, out: string, k: nat) {
    k < |t| && k < |out| && (t[k] == '\n' <==> out[k] == '\n')
  }

  // The newline at k follows a backslash that stands inside a string.
  predicate NewlineEscaped(t: string, k: nat) {
    0 < k < |t| && t[k] == '\n' && EscapesNewline(t, Code, k - 1)
  }

  // The line shape survives exactly when no string literal escapes a newline.
  lemma AwareKeepsLinesIff(t: string)
    ensures SameLines(t, StripAware(t, Code)) <==> forall k: nat | k < |t| :: !NewlineEscaped(t, k)
  {
    var out := StripAware(t, Code);
    AwareShape(t, Code);
    forall k: nat | k < |t| ensures SameLineEnd(t, out, k) <==> !NewlineEscaped(t, k) {
      if t[k] == '\n' {
        AwareNewline(t, Code, k);
      }
    }
  }

  // A string that ends a line with a backslash loses the newline.
  lemma EscapedNewlineLost(t: string)
    requires t == ['"', '\\', '\n', '"']
    ensures !SameLines(t, StripAware(t, Code))
  {
    assert EscapesNewline(t[1..], Str, 0);
    assert ScanAware(t[0], t[1], false, Code) == Move(" ", Str);
    assert EscapesNewline(t, Code, 1);
    assert NewlineEscaped(t, 2);
    AwareKeepsLinesIff(t);
  }

  // The two strippers agree exactly on the texts with no quote outside comments,
  // that is, whose stripped form has none.
  lemma {:induction false} AgreeIff(t: string, m: Mode)
    requires m != Str
    ensures StripAware(t, m) == Strip(t, m) <==> '"' !in Strip(t, m)
    decreases |t|
  {
    if t != "" {
      var move := Scan(t[0], Second(t), m);
      var rest := t[|move.piece|..];
      if m == Code && t[0] == '"' {
        assert Strip(t, m)[0] == '"' && StripAware(t, m)[0] == ' ';
      } else {
        AgreeIff(rest, move.mode);
        assert ScanAware(t[0], Second(t), |t| == 1, m) == move;
        assert '"' !in move.piece;
        assert Strip(t, m)[|move.piece|..] == Strip(rest, move.mode);
        assert StripAware(t, m)[|move.piece|..] == StripAware(rest, move.mode);
      }
    }
  }

  // ----- String literals -----

  // What stands between the quotes of a string: plain characters, and escapes of
  // one character each.
  datatype Literal = Done | Plain(c: char, rest: Literal) | Escape(c: char, rest: Literal)

  function Written(l: Literal): string {
    match l
    case Done => ""
    case Plain(c, rest) => [c] + Written(rest)
    case Escape(c, rest) => ['\\', c] + Written(rest)
  }

  predicate IsLiteral(l: Literal) {
    match l
    case Done => true
    case Plain(c, rest) => c != '"' && c != '\\' && IsLiteral(rest)
    case Escape(_, rest) => IsLiteral(rest)
  }

  function BlankLiteral(l: Literal): string {
    match l
    case Done => ""
    case Plain(c, rest) => Blank(c) + BlankLiteral(rest)
    case Escape(_, rest) => "  " + BlankLiteral(rest)
  }

  lemma {:induction false} LiteralBlanked(l: Literal, after: string)
    requires IsLiteral(l)
    ensures StripAware(Written(l) + after, Str) == BlankLiteral(l) + StripAware(after, Str)
    decreases l
  {
    match l
    case Done => assert Written(l) + after == after;
    case Plain(c, more) =>
      LiteralBlanked(more, after);
      Associate([c], Written(more), after);
      assert ([c] + (Written(more) + after))[1..] == Written(more) + after;
      Associate(Blank(c), BlankLiteral(more), StripAware(after, Str));
    case Escape(c, more) =>
      LiteralBlanked(more, after);
      Associate(['\\', c], Written(more), after);
      assert (['\\', c] + (Written(more) + after))[2..] == Written(more) + after;
      Associate("  ", BlankLiteral(more), StripAware(after, Str));
  }

  // The string-aware stripper blanks a whole literal, comment markers and
  // escaped quotes in it included, and goes on as code after it.
  lemma StringBlanked(l: Literal, rest: string)
    requires IsLiteral(l)
    ensures StripAware(['"'] + (Written(l) + (['"'] + rest)), Code) == " " + (BlankLiteral(l) + (" " + StripAware(rest, Code)))
  {
    LiteralBlanked(l, ['"'] + rest);
    assert (['"'] + (Written(l) + (['"'] + rest)))[1..] == Written(l) + (['"'] + rest);
    assert (['"'] + rest)[1..] == rest;
  }

  // A literal the text ends in, after a backslash or not, is blanked to the end.
  lemma UnclosedStringBlanked(l: Literal, backslash: bool)
    requires IsLiteral(l)
    ensures var last := if backslash then "\\" else "";
            StripAware(['"'] + (Written(l) + last), Code) == " " + (BlankLiteral(l) + if backslash then " " else "")
  {
    LiteralBlanked(l, if backslash then "\\" else "");
    QuoteRead(Written(l) + if backslash then "\\" else "");
    LastBackslash();
  }

  lemma QuoteRead(rest: string)
    ensures StripAware(['"'] + rest, Code) == " " + StripAware(rest, Str)
  {
    assert (['"'] + rest)[1..] == rest;
  }

  lemma LastBackslash()
    ensures StripAware("\\", Str) == " " && StripAware("", Str) == ""
  {
    assert "\\"[1..] == "";
  }
}
