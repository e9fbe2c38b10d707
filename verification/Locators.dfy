/** Locators into a PDF: built by scripts/migrate_intel_sdm_refs.py, checked by
    scripts/check_references.py.  Digits are the ASCII ones. */
module Locators {
  import opened Options
  import opened Text
  import opened Decimal
  import opened Reviewers

  const PAGE_COUNT: nat := 5060

  // The target of a citation as its path shows it: an instruction page with its
  // file stem, a chapter page with the titles of its anchors, or neither.
  datatype Target = Instruction(stem: string) | Chapter(titles: map<string, string>) | Unrecognized

  // Page bounds as they are written into the locator.
  datatype Front = Front(volume: string, pageStart: string, pageEnd: string, manualPages: string)

  datatype Key = Instr(mnemonic: string) | Sec(number: string)

  datatype Pages = Pages(first: string, last: string)

  datatype Locator = Locator(vol: string, key: Key, part: string, pages: Option<Pages>, mp: Option<string>)

  // ----- Numbers and names -----

  predicate IsLetter(c: char) {
    IsLower(c) || 'A' <= c <= 'Z'
  }

  predicate IsMnemonic(s: string) {
    s != "" && IsLetter(s[0]) && forall i | 0 <= i < |s| :: IsLetter(s[i]) || IsDigit(s[i]) || s[i] == '_'
  }

  predicate IsSectionNumber(s: string) {
    forall part | part in Split(s, '.') :: AllDigits(part)
  }

  // The digits a text starts with.
  function LeadingDigits(s: string): (r: string)
    ensures r <= s && forall i | 0 <= i < |r| :: IsDigit(r[i])
  {
    if s != "" && IsDigit(s[0]) then [s[0]] + LeadingDigits(s[1..]) else ""
  }

  // The longest section number a text starts with, if any.
  function LeadingSection(s: string): string
    decreases |s|
  {
    var head := LeadingDigits(s);
    var rest := s[|head|..];
    if head == "" then ""
    else if rest != "" && rest[0] == '.' && LeadingSection(rest[1..]) != "" then head + ['.'] + LeadingSection(rest[1..])
    else head
  }

  predicate Mentions(s: string, sub: string) {
    exists i | 0 <= i <= |s| :: sub <= s[i..]
  }

  function VolToken(volume: string): Option<string> {
    if "Volume " <= volume && |volume| > 7 && IsDigit(volume[7]) then Some([volume[7]])
    else if "index" <= Lower(Trim(volume)) || Mentions(Lower(volume), "combined volumes") then Some("index")
    else None
  }

  // Runs of white space become one underscore each.
  function Underscored(s: string, inRun: bool): string {
    if s == "" then ""
    else if IsSpace(s[0]) then (if inRun then "" else "_") + Underscored(s[1..], true)
    else [s[0]] + Underscored(s[1..], false)
  }

  function EncodeManualPages(mp: string): string {
    Underscored(Trim(mp), false)
  }

  // ----- The grammar -----

  function After(prefix: string, s: string): Option<string> {
    if prefix <= s then Some(s[|prefix|..]) else None
  }

  predicate IsVol(vol: string) {
    vol in {"1", "2", "3", "4", "index"}
  }

  function ParseKey(field: string): Option<Key> {
    match After("instr=", field)
    case Some(name) => if IsMnemonic(name) then Some(Instr(name)) else None
    case None =>
      match After("sec=", field)
      case Some(number) => if IsSectionNumber(number) then Some(Sec(number)) else None
      case None => None
  }

  function ParsePages(field: string): Option<Pages> {
    match After("pp=", field)
    case None => None
    case Some(range) =>
      var bounds := Split(range, '-');
      if |bounds| == 2 && AllDigits(bounds[0]) && AllDigits(bounds[1]) then Some(Pages(bounds[0], bounds[1])) else None
  }

  function ParseNonEmpty(prefix: string, field: string): Option<string> {
    match After(prefix, field)
    case Some(rest) => if rest == "" then None else Some(rest)
    case None => None
  }

  // A final page range may be followed by one newline.
  function ChopNewline(field: string): string {
    if field != "" && field[|field| - 1] == '\n' then field[..|field| - 1] else field
  }

  // Fields separated by semicolons: volume, key and part; then pages; then
  // manual pages.  The pages may be missing unless they are asked for.
  function Parse(anchor: string, pagesNeeded: bool): Option<Locator> {
    var fields := Split(anchor, ';');
    var n := |fields|;
    if !(3 <= n <= 5) || (pagesNeeded && n == 3) then None
    else
      var vol := After("vol=", fields[0]);
      var key := ParseKey(fields[1]);
      var part := ParseNonEmpty("part=", fields[2]);
      var pages := if n == 3 then None else ParsePages(if n == 4 then ChopNewline(fields[3]) else fields[3]);
      var mp := if n == 5 then ParseNonEmpty("mp=", fields[4]) else None;
      if vol.None? || !IsVol(vol.value) || key.None? || part.None? || (n > 3 && pages.None?) || (n == 5 && mp.None?) then None
      else Some(Locator(vol.value, key.value, part.value, pages, mp))
  }

  // ----- Checking and building -----

  datatype Check = Accepted | Malformed | Unresolved

  function CheckPdfLocator(anchor: string, pageCount: nat): Check {
    match Parse(anchor, false)
    case None => Malformed
    case Some(l) =>
      if l.pages.Some? && Value(l.pages.value.first) > Value(l.pages.value.last) then Unresolved
      else if l.pages.Some? && Value(l.pages.value.last) > pageCount then Unresolved
      else Accepted
  }

  function KeyFor(target: Target, anchor: string): Option<Key> {
    match target
    case Instruction(stem) => if IsMnemonic(stem) then Some(Instr(stem)) else None
    case Chapter(titles) =>
      if anchor !in titles || LeadingSection(Trim(titles[anchor])) == "" then None
      else Some(Sec(LeadingSection(Trim(titles[anchor]))))
    case Unrecognized => None
  }

  function KeyField(key: Key): string {
    match key
    case Instr(name) => "instr=" + name
    case Sec(number) => "sec=" + number
  }

  function PagesField(pages: Pages): string {
    "pp=" + (pages.first + ['-'] + pages.last)
  }

  function Fields(vol: string, key: Key, part: string, pages: Pages, mp: string): seq<string> {
    ["vol=" + vol, KeyField(key), "part=" + part, PagesField(pages), "mp=" + mp]
  }

  // The locator, or None where the builder refuses; what it builds it parses
  // again and checks before it returns it.
  function BuildLocator(front: Front, target: Target, anchor: string): Option<string> {
    var vol := VolToken(front.volume);
    var key := KeyFor(target, anchor);
    if vol.None? || key.None? then None
    else
      var pages := Pages(front.pageStart, front.pageEnd);
      var locator := Join(Fields(vol.value, key.value, anchor, pages, EncodeManualPages(front.manualPages)), ';');
      match Parse(locator, true)
      case None => None
      case Some(l) =>
        if Value(l.pages.value.first) > Value(l.pages.value.last) || Value(l.pages.value.last) > PAGE_COUNT then None
        else Some(locator)
  }

  // ----- What is built reads back -----

  // Splitting joined fields gives at least one field for each.
  lemma {:induction false} SplitJoined(fields: seq<string>, c: char)
    requires fields != []
    ensures |Split(Join(fields, c), c)| >= |fields|
    ensures |Split(Join(fields, c), c)| == |fields| ==>
              Split(Join(fields, c), c) == fields && forall f | f in fields :: Without(f, c)
  {
    if |fields| == 1 {
      if |Split(fields[0], c)| == 1 {
        SplitSingle(fields[0], c);
        SplitWithout(fields[0], c);
        assert fields == [fields[0]];
      }
    } else {
      SplitJoined(fields[1..], c);
      SplitConcat(fields[0], Join(fields[1..], c), c);
      if |Split(Join(fields, c), c)| == |fields| {
        SplitSingle(fields[0], c);
        SplitWithout(fields[0], c);
        assert fields == [fields[0]] + fields[1..];
      }
    }
  }

  lemma AfterPrefix(prefix: string, rest: string)
    ensures After(prefix, prefix + rest) == Some(rest)
  {
  }

  // A page range reads back as the bounds it was written from.
  lemma PagesReadBack(pages: Pages)
    ensures ParsePages(PagesField(pages)) == if AllDigits(pages.first) && AllDigits(pages.last) then Some(pages) else None
  {
    var range := pages.first + ['-'] + pages.last;
    AfterPrefix("pp=", range);
    SplitConcat(pages.first, pages.last, '-');
    if |Split(range, '-')| == 2 {
      SplitSingle(pages.first, '-');
      SplitSingle(pages.last, '-');
      SplitWithout(pages.first, '-');
      SplitWithout(pages.last, '-');
    } else if AllDigits(pages.first) && AllDigits(pages.last) {
      SplitWithout(pages.first, '-');
      SplitWithout(pages.last, '-');
      assert false;
    }
  }

  predicate KeyReads(key: Key) {
    match key
    case Instr(name) => IsMnemonic(name)
    case Sec(number) => IsSectionNumber(number)
  }

  lemma KeyReadsBack(key: Key)
    ensures ParseKey(KeyField(key)) == if KeyReads(key) then Some(key) else None
  {
    match key
    case Instr(name) => AfterPrefix("instr=", name);
    case Sec(number) =>
      AfterPrefix("sec=", number);
      assert KeyField(key)[0] == 's' && "instr="[0] == 'i';
  }

  // What the components must be for the locator to mean them.
  predicate IsClean(vol: string, key: Key, part: string, pages: Pages, mp: string) {
    && IsVol(vol) && KeyReads(key)
    && part != "" && Without(part, ';')
    && AllDigits(pages.first) && AllDigits(pages.last)
    && mp != "" && Without(mp, ';')
  }

  lemma CleanFields(vol: string, key: Key, part: string, pages: Pages, mp: string)
    requires IsClean(vol, key, part, pages, mp)
    ensures forall f | f in Fields(vol, key, part, pages, mp) :: Without(f, ';')
  {
    if key.Sec? {
      CharsOfFields(key.number, '.');
    }
    assert Without(KeyField(key), ';');
    assert Without(PagesField(pages), ';');
  }

  lemma FieldsParse(vol: string, key: Key, part: string, pages: Pages, mp: string, pagesNeeded: bool)
    requires Split(Join(Fields(vol, key, part, pages, mp), ';'), ';') == Fields(vol, key, part, pages, mp)
    requires Without(part, ';') && Without(mp, ';')
    ensures Parse(Join(Fields(vol, key, part, pages, mp), ';'), pagesNeeded) ==
            if IsClean(vol, key, part, pages, mp) then Some(Locator(vol, key, part, Some(pages), Some(mp))) else None
  {
    AfterPrefix("vol=", vol);
    AfterPrefix("part=", part);
    AfterPrefix("mp=", mp);
    KeyReadsBack(key);
    PagesReadBack(pages);
  }

  // Written out and parsed, clean components come back one by one, and nothing
  // else parses: a semicolon in any of them makes a sixth field.
  lemma FieldsReadBack(vol: string, key: Key, part: string, pages: Pages, mp: string, pagesNeeded: bool)
    ensures Parse(Join(Fields(vol, key, part, pages, mp), ';'), pagesNeeded) ==
            if IsClean(vol, key, part, pages, mp) then Some(Locator(vol, key, part, Some(pages), Some(mp))) else None
  {
    var fields := Fields(vol, key, part, pages, mp);
    SplitJoined(fields, ';');
    if IsClean(vol, key, part, pages, mp) {
      CleanFields(vol, key, part, pages, mp);
      SplitOfJoin(fields, ';');
      FieldsParse(vol, key, part, pages, mp, pagesNeeded);
    } else if |Split(Join(fields, ';'), ';')| == 5 {
      assert Without(fields[2], ';') && Without(fields[4], ';');
      assert Without(part, ';') by { WithoutParts("part=", part, ';'); }
      assert Without(mp, ';') by { WithoutParts("mp=", mp, ';'); }
      FieldsParse(vol, key, part, pages, mp, pagesNeeded);
    }
  }

  // The builder returns a locator exactly when its components are clean and the
  // pages are in order and within the document, and what it returns is accepted
  // by check_pdf_locator at that page count and means those components.
  lemma LocatorReadsBack(front: Front, target: Target, anchor: string)
    ensures var vol, key := VolToken(front.volume), KeyFor(target, anchor);
            var pages, mp := Pages(front.pageStart, front.pageEnd), EncodeManualPages(front.manualPages);
            var built := BuildLocator(front, target, anchor);
            && (built.Some? <==>
                  && vol.Some? && key.Some? && IsClean(vol.value, key.value, anchor, pages, mp)
                  && Value(front.pageStart) <= Value(front.pageEnd) <= PAGE_COUNT)
            && (built.Some? ==>
                  && CheckPdfLocator(built.value, PAGE_COUNT) == Accepted
                  && Parse(built.value, false) == Some(Locator(vol.value, key.value, anchor, Some(pages), Some(mp))))
  {
    var vol, key := VolToken(front.volume), KeyFor(target, anchor);
    if vol.Some? && key.Some? {
      var pages, mp := Pages(front.pageStart, front.pageEnd), EncodeManualPages(front.manualPages);
      FieldsReadBack(vol.value, key.value, anchor, pages, mp, true);
      FieldsReadBack(vol.value, key.value, anchor, pages, mp, false);
    }
  }

  // Manual pages are written without white space, so encoding them again
  // changes nothing.
  lemma {:induction false} UnderscoredClean(s: string, inRun: bool)
    ensures forall i | 0 <= i < |Underscored(s, inRun)| :: !IsSpace(Underscored(s, inRun)[i])
    decreases |s|
  {
    if s != "" {
      UnderscoredClean(s[1..], IsSpace(s[0]));
    }
  }

  lemma {:induction false} UnderscoredPlain(s: string, inRun: bool)
    requires forall i | 0 <= i < |s| :: !IsSpace(s[i])
    ensures Underscored(s, inRun) == s
    decreases |s|
  {
    if s != "" {
      UnderscoredPlain(s[1..], false);
      assert [s[0]] + s[1..] == s;
    }
  }

  lemma EncodingIdempotent(mp: string)
    ensures EncodeManualPages(EncodeManualPages(mp)) == EncodeManualPages(mp)
  {
    UnderscoredClean(Trim(mp), false);
    UnderscoredPlain(EncodeManualPages(mp), false);
  }

  // ----- The texts that are locators -----

  function KeyParts(l: Locator): seq<string> {
    ["vol=" + l.vol, KeyField(l.key), "part=" + l.part]
  }

  // The locator as text; a newline may end a final page range.
  function Spelled(l: Locator, newline: bool): seq<string> {
    if l.pages.None? then KeyParts(l)
    else if l.mp.None? then KeyParts(l) + [PagesField(l.pages.value) + if newline then "\n" else ""]
    else KeyParts(l) + [PagesField(l.pages.value), "mp=" + l.mp.value]
  }

  predicate IsLocator(l: Locator) {
    && IsVol(l.vol) && KeyReads(l.key) && l.part != "" && Without(l.part, ';')
    && (l.pages.Some? ==> AllDigits(l.pages.value.first) && AllDigits(l.pages.value.last))
    && (l.mp.Some? ==> l.pages.Some? && l.mp.value != "" && Without(l.mp.value, ';'))
  }

  predicate Spells(anchor: string, l: Locator) {
    IsLocator(l) && (anchor == Join(Spelled(l, false), ';') || anchor == Join(Spelled(l, true), ';'))
  }

  lemma CutPrefix(prefix: string, field: string)
    ensures After(prefix, field).Some? ==> field == prefix + After(prefix, field).value
  {
  }

  lemma KeyCut(field: string)
    ensures ParseKey(field).Some? ==> KeyReads(ParseKey(field).value) && field == KeyField(ParseKey(field).value)
  {
    CutPrefix("instr=", field);
    CutPrefix("sec=", field);
  }

  lemma PagesCut(field: string)
    ensures ParsePages(field).Some? ==>
              var pages := ParsePages(field).value;
              AllDigits(pages.first) && AllDigits(pages.last) && field == PagesField(pages)
  {
    CutPrefix("pp=", field);
    if ParsePages(field).Some? {
      var range := After("pp=", field).value;
      JoinOfSplit(range, '-');
      var bounds := Split(range, '-');
      assert bounds[1..] == [bounds[1]];
    }
  }

  lemma NewlineChopped(field: string)
    ensures field == ChopNewline(field) || field == ChopNewline(field) + "\n"
    ensures AllDigits(field) ==> ChopNewline(field) == field
  {
    if field != "" && field[|field| - 1] == '\n' {
      assert field == field[..|field| - 1] + [field[|field| - 1]];
    }
  }

  lemma KeyPartsCut(fields: seq<string>, l: Locator)
    requires |fields| >= 3 && forall f | f in fields :: Without(f, ';')
    requires After("vol=", fields[0]) == Some(l.vol) && ParseKey(fields[1]) == Some(l.key)
    requires ParseNonEmpty("part=", fields[2]) == Some(l.part)
    ensures fields[..3] == KeyParts(l) && KeyReads(l.key) && l.part != "" && Without(l.part, ';')
  {
    CutPrefix("vol=", fields[0]);
    KeyCut(fields[1]);
    CutPrefix("part=", fields[2]);
    assert fields[2] in fields;
    WithoutParts("part=", l.part, ';');
  }

  lemma PagePartsCut(fields: seq<string>, l: Locator)
    requires |fields| == 5 && forall f | f in fields :: Without(f, ';')
    requires ParsePages(fields[3]).Some? && ParsePages(fields[3]) == l.pages
    requires ParseNonEmpty("mp=", fields[4]).Some? && ParseNonEmpty("mp=", fields[4]) == l.mp
    ensures AllDigits(l.pages.value.first) && AllDigits(l.pages.value.last) && l.mp.value != "" && Without(l.mp.value, ';')
    ensures fields[3..] == [PagesField(l.pages.value), "mp=" + l.mp.value]
  {
    PagesCut(fields[3]);
    CutPrefix("mp=", fields[4]);
    assert fields[4] in fields;
    WithoutParts("mp=", l.mp.value, ';');
  }

  // What parses is spelled as a locator.
  lemma ParsedIsSpelled(anchor: string, pagesNeeded: bool)
    requires Parse(anchor, pagesNeeded).Some?
    ensures Spells(anchor, Parse(anchor, pagesNeeded).value)
    ensures pagesNeeded ==> Parse(anchor, pagesNeeded).value.pages.Some?
  {
    var l := Parse(anchor, pagesNeeded).value;
    var fields := Split(anchor, ';');
    SplitClean(anchor, ';');
    JoinOfSplit(anchor, ';');
    KeyPartsCut(fields, l);
    assert fields == fields[..3] + fields[3..];
    if |fields| == 3 {
      assert fields == KeyParts(l);
    } else if |fields| == 4 {
      NewlineChopped(fields[3]);
      PagesCut(ChopNewline(fields[3]));
      assert fields[3..] == [fields[3]];
      assert PagesField(l.pages.value) + "" == PagesField(l.pages.value);
    } else {
      PagePartsCut(fields, l);
    }
  }

  lemma SpelledClean(l: Locator, newline: bool)
    requires IsLocator(l)
    ensures forall f | f in Spelled(l, newline) :: Without(f, ';')
  {
    if l.key.Sec? {
      CharsOfFields(l.key.number, '.');
    }
    assert Without(KeyField(l.key), ';');
    if l.pages.Some? {
      assert Without(PagesField(l.pages.value), ';');
    }
  }

  lemma FinalPages(pages: Pages, newline: bool)
    requires AllDigits(pages.first) && AllDigits(pages.last)
    ensures ChopNewline(PagesField(pages) + if newline then "\n" else "") == PagesField(pages)
  {
    var field := PagesField(pages);
    assert field[|field| - 1] == pages.last[|pages.last| - 1];
    if newline {
      assert (field + "\n")[..|field|] == field;
    } else {
      assert field + "" == field;
    }
  }

  // And what is spelled so parses, to that locator.
  lemma SpelledParses(l: Locator, newline: bool, pagesNeeded: bool)
    requires IsLocator(l) && (pagesNeeded ==> l.pages.Some?)
    ensures Parse(Join(Spelled(l, newline), ';'), pagesNeeded) == Some(l)
  {
    SpelledClean(l, newline);
    SplitOfJoin(Spelled(l, newline), ';');
    AfterPrefix("vol=", l.vol);
    KeyReadsBack(l.key);
    AfterPrefix("part=", l.part);
    if l.pages.Some? {
      PagesReadBack(l.pages.value);
      FinalPages(l.pages.value, newline);
    }
    if l.mp.Some? {
      AfterPrefix("mp=", l.mp.value);
    }
  }

  lemma ParseIffSpelled(anchor: string, l: Locator)
    ensures Parse(anchor, false) == Some(l) <==> Spells(anchor, l)
  {
    if Parse(anchor, false) == Some(l) {
      ParsedIsSpelled(anchor, false);
    }
    if Spells(anchor, l) {
      SpelledParses(l, false, false);
      SpelledParses(l, true, false);
    }
  }

  predicate InRange(pages: Option<Pages>, pageCount: nat) {
    pages.Some? ==> Value(pages.value.first) <= Value(pages.value.last) && Value(pages.value.last) <= pageCount
  }

  // The check accepts exactly the texts of locators whose pages, if any, are in
  // order and within the document, and calls malformed exactly what is no locator.
  lemma CheckMeans(anchor: string, pageCount: nat)
    ensures CheckPdfLocator(anchor, pageCount) == Accepted <==> exists l :: Spells(anchor, l) && InRange(l.pages, pageCount)
    ensures CheckPdfLocator(anchor, pageCount) == Malformed <==> forall l :: !Spells(anchor, l)
  {
    forall l ensures Parse(anchor, false) == Some(l) <==> Spells(anchor, l) {
      ParseIffSpelled(anchor, l);
    }
    if Parse(anchor, false).Some? {
      assert Spells(anchor, Parse(anchor, false).value);
    }
  }

  // ----- Where the components of a built locator come from -----

  // Words with white space between them.
  function Spread(words: seq<string>, gaps: seq<string>): string
    requires |words| == |gaps| + 1
  {
    if gaps == [] then words[0] else words[0] + (gaps[0] + Spread(words[1..], gaps[1..]))
  }

  predicate IsWord(s: string) {
    s != "" && forall i | 0 <= i < |s| :: !IsSpace(s[i])
  }

  predicate IsGap(s: string) {
    s != "" && AllSpace(s)
  }

  lemma {:induction false} WordUnderscored(word: string, rest: string, inRun: bool)
    requires IsWord(word)
    ensures Underscored(word + rest, inRun) == word + Underscored(rest, false)
  {
    assert (word + rest)[1..] == word[1..] + rest;
    if |word| > 1 {
      WordUnderscored(word[1..], rest, false);
      assert [word[0]] + (word[1..] + Underscored(rest, false)) == word + Underscored(rest, false);
    } else {
      assert word[1..] + rest == rest && [word[0]] == word;
    }
  }

  lemma {:induction false} GapUnderscored(gap: string, rest: string, inRun: bool)
    requires IsGap(gap)
    ensures Underscored(gap + rest, inRun) == (if inRun then "" else "_") + Underscored(rest, true)
  {
    assert (gap + rest)[1..] == gap[1..] + rest;
    if |gap| > 1 {
      GapUnderscored(gap[1..], rest, true);
    } else {
      assert gap[1..] + rest == rest;
    }
  }

  lemma SpreadRun(words: seq<string>, gaps: seq<string>)
    requires |words| == |gaps| + 1 && forall w | w in words :: IsWord(w)
    ensures Underscored(Spread(words, gaps), true) == Underscored(Spread(words, gaps), false)
  {
    var rest := if gaps == [] then "" else gaps[0] + Spread(words[1..], gaps[1..]);
    assert words[0] in words && Spread(words, gaps) == words[0] + rest;
    WordUnderscored(words[0], rest, true);
    WordUnderscored(words[0], rest, false);
  }

  lemma {:induction false} SpreadUnderscored(words: seq<string>, gaps: seq<string>)
    requires |words| == |gaps| + 1
    requires (forall w | w in words :: IsWord(w)) && (forall g | g in gaps :: IsGap(g))
    ensures Underscored(Spread(words, gaps), false) == Join(words, '_')
    decreases |gaps|
  {
    if gaps == [] {
      WordUnderscored(words[0], "", false);
      assert words[0] + "" == words[0];
    } else {
      var tail := Spread(words[1..], gaps[1..]);
      WordUnderscored(words[0], gaps[0] + tail, false);
      GapUnderscored(gaps[0], tail, false);
      SpreadUnderscored(words[1..], gaps[1..]);
      SpreadRun(words[1..], gaps[1..]);
      assert words[0] + ("_" + Join(words[1..], '_')) == Join(words, '_');
    }
  }

  lemma {:induction false} SpreadTrimmed(words: seq<string>, gaps: seq<string>)
    requires |words| == |gaps| + 1 && forall w | w in words :: IsWord(w)
    ensures Spread(words, gaps) != "" && IsTrimmed(Spread(words, gaps))
    decreases |gaps|
  {
    assert words[0] in words;
    if gaps != [] {
      SpreadTrimmed(words[1..], gaps[1..]);
    }
  }

  // Manual pages are their words, one underscore apart; white space alone is nothing.
  lemma EncodingMeans(before: string, words: seq<string>, gaps: seq<string>, after: string)
    requires |words| == |gaps| + 1 && AllSpace(before) && AllSpace(after)
    requires (forall w | w in words :: IsWord(w)) && (forall g | g in gaps :: IsGap(g))
    ensures EncodeManualPages(before + Spread(words, gaps) + after) == Join(words, '_')
    ensures EncodeManualPages(before) == ""
  {
    SpreadTrimmed(words, gaps);
    TrimMeans(before, Spread(words, gaps), after);
    SpreadUnderscored(words, gaps);
    TrimMeans(before, "", "");
    assert before + "" + "" == before;
  }

  // The volume: the digit after "Volume ", or else "index" for a field that starts
  // so or speaks of combined volumes, in any case; nothing for any other field.
  lemma VolTokenMeans(volume: string, d: char)
    ensures IsDigit(d) && "Volume " + [d] <= volume ==> VolToken(volume) == Some([d])
    ensures (forall c: char | IsDigit(c) :: !("Volume " + [c] <= volume)) ==>
              VolToken(volume) == if "index" <= Lower(Trim(volume)) || Mentions(Lower(volume), "combined volumes") then Some("index") else None
  {
    if "Volume " <= volume && |volume| > 7 {
      assert "Volume " + [volume[7]] <= volume;
    }
  }

  lemma {:induction false} LeadingDigitsLongest(s: string, t: string)
    requires t <= s && forall i | 0 <= i < |t| :: IsDigit(t[i])
    ensures |t| <= |LeadingDigits(s)|
    ensures var head := LeadingDigits(s); head == s || !IsDigit(s[|head|])
  {
    if t != "" {
      LeadingDigitsLongest(s[1..], t[1..]);
    } else if s != "" && IsDigit(s[0]) {
      LeadingDigitsLongest(s[1..], "");
    }
  }

  lemma {:induction false} DigitsEnd(t: string, n: nat)
    requires n < |t| && !IsDigit(t[n])
    ensures |LeadingDigits(t)| <= n
  {
    if IsDigit(t[0]) {
      DigitsEnd(t[1..], n - 1);
    }
  }

  lemma DigitsNoDot(head: string)
    requires forall i | 0 <= i < |head| :: IsDigit(head[i])
    ensures Split(head, '.') == [head]
  {
    SplitWithout(head, '.');
  }

  // A section number starts with digits; what follows them is nothing, or a dot
  // and a section number.
  lemma SectionSplits(t: string)
    requires IsSectionNumber(t)
    ensures var head := LeadingDigits(t);
            head != "" && (t == head || (t[|head|] == '.' && IsSectionNumber(t[|head| + 1..])))
  {
    var parts := Split(t, '.');
    JoinOfSplit(t, '.');
    assert parts[0] in parts;
    LeadingDigitsLongest(t, parts[0]);
    if |parts| > 1 {
      var rest := Join(parts[1..], '.');
      assert t == parts[0] + ['.'] + rest;
      var head := LeadingDigits(t);
      assert t[|parts[0]|] == '.';
      DigitsEnd(t, |parts[0]|);
      SplitConcat(parts[0], rest, '.');
      SplitClean(t, '.');
      SplitWithout(parts[0], '.');
      assert parts == [parts[0]] + parts[1..];
      assert t[|head| + 1..] == rest;
      assert Split(rest, '.') == parts[1..];
    }
  }

  // What a title gives as its section is a section number it starts with,
  lemma {:induction false} LeadingSectionIsOne(s: string)
    ensures LeadingSection(s) <= s && (LeadingSection(s) != "" ==> IsSectionNumber(LeadingSection(s)))
    decreases |s|
  {
    var head := LeadingDigits(s);
    var rest := s[|head|..];
    if head != "" {
      DigitsNoDot(head);
      if rest != "" && rest[0] == '.' {
        LeadingSectionIsOne(rest[1..]);
        SectionJoined(head, LeadingSection(rest[1..]));
        assert s == head + ['.'] + rest[1..];
      }
    }
  }

  lemma SectionJoined(head: string, more: string)
    requires AllDigits(head)
    ensures IsSectionNumber(more) ==> IsSectionNumber(head + ['.'] + more)
  {
    DigitsNoDot(head);
    SplitConcat(head, more, '.');
  }

  // and the longest one.
  lemma {:induction false} LeadingSectionLongest(s: string, t: string)
    requires t <= s && IsSectionNumber(t)
    ensures t <= LeadingSection(s)
    decreases |s|
  {
    var head := LeadingDigits(s);
    var rest := s[|head|..];
    SectionSplits(t);
    LeadingWithin(t, s);
    if t != LeadingDigits(t) {
      var u := t[|head| + 1..];
      assert t[|head|] == s[|head|] == rest[0];
      assert rest[1..] == s[|head| + 1..];
      assert u <= rest[1..] && t == head + ['.'] + u;
      SectionSplits(u);
      LeadingSectionLongest(rest[1..], u);
    }
  }

  // A prefix that goes on past its digits has the same leading digits.
  lemma LeadingWithin(t: string, s: string)
    requires t <= s
    ensures LeadingDigits(t) <= LeadingDigits(s)
    ensures |LeadingDigits(t)| < |t| ==> LeadingDigits(t) == LeadingDigits(s)
  {
    LeadingDigitsLongest(s, LeadingDigits(t));
    LeadingDigitsLongest(t, "");
  }
}
