/** Lean bytes up to CRLF or LF line ends, as
    scripts/check_no_ignored_lean_sources.py compares them. */
module LineEndings {
  import opened Options

  type Bytes = string

  predicate StartsCrlf(data: Bytes) {
    |data| >= 2 && data[0] == '\r' && data[1] == '\n'
  }

  function ReplaceCrlf(data: Bytes): Bytes
    decreases |data|
  {
    if data == "" then ""
    else if StartsCrlf(data) then "\n" + ReplaceCrlf(data[2..])
    else [data[0]] + ReplaceCrlf(data[1..])
  }

  // None where the source refuses a carriage return that ends no CRLF.
  function Normalized(data: Bytes): Option<Bytes> {
    if '\r' in ReplaceCrlf(data) then None else Some(ReplaceCrlf(data))
  }

  predicate LoneCrAt(data: Bytes, i: nat) {
    i < |data| && data[i] == '\r' && (i + 1 == |data| || data[i + 1] != '\n')
  }

  // `data` is `lines` with each newline written as LF or as CRLF.
  predicate IsVariant(data: Bytes, lines: Bytes)
    decreases |lines|
  {
    if lines == "" then data == ""
    else if lines[0] == '\n' then
      || (data != "" && data[0] == '\n' && IsVariant(data[1..], lines[1..]))
      || (StartsCrlf(data) && IsVariant(data[2..], lines[1..]))
    else lines[0] != '\r' && data != "" && data[0] == lines[0] && IsVariant(data[1..], lines[1..])
  }

  // Exactly the lone carriage returns are refused.
  lemma {:induction false} RefusedIffLoneCr(data: Bytes)
    ensures Normalized(data).None? <==> exists i: nat :: LoneCrAt(data, i)
    decreases |data|
  {
    if data != "" {
      var skip := if StartsCrlf(data) then 2 else 1;
      var rest := data[skip..];
      RefusedIffLoneCr(rest);
      assert '\r' in ReplaceCrlf(data) <==> (skip == 1 && data[0] == '\r') || '\r' in ReplaceCrlf(rest);
      forall i: nat | LoneCrAt(rest, i) ensures LoneCrAt(data, i + skip) {
      }
      forall i: nat | LoneCrAt(data, i) && i >= skip ensures LoneCrAt(rest, i - skip) {
      }
      assert skip == 1 && data[0] == '\r' <==> LoneCrAt(data, 0);
      assert skip == 2 ==> !LoneCrAt(data, 1);
      if i: nat :| LoneCrAt(data, i) {
        assert i == 0 || i >= skip;
      }
    }
  }

  // Normalising yields exactly the text the bytes are a variant of.
  lemma {:induction false} NormalizedIff(data: Bytes, lines: Bytes)
    ensures Normalized(data) == Some(lines) <==> IsVariant(data, lines)
    decreases |data|
  {
    if data != "" {
      var skip := if StartsCrlf(data) then 2 else 1;
      var rest := data[skip..];
      var first := if skip == 2 then '\n' else data[0];
      assert ReplaceCrlf(data) == [first] + ReplaceCrlf(rest);
      if lines != "" {
        NormalizedIff(rest, lines[1..]);
        assert lines == [lines[0]] + lines[1..];
        assert ReplaceCrlf(data) == lines <==> first == lines[0] && ReplaceCrlf(rest) == lines[1..] by {
          assert ([first] + ReplaceCrlf(rest))[1..] == ReplaceCrlf(rest);
        }
        assert '\r' in ReplaceCrlf(data) <==> first == '\r' || '\r' in ReplaceCrlf(rest);
      }
    }
  }

  // Two files are taken as equal exactly when they differ in nothing but the
  // choice of LF or CRLF at each line end.
  lemma SameUpToLineEnds(a: Bytes, b: Bytes)
    ensures Normalized(a).Some? && Normalized(a) == Normalized(b) <==> exists lines :: IsVariant(a, lines) && IsVariant(b, lines)
  {
    if Normalized(a).Some? && Normalized(a) == Normalized(b) {
      NormalizedIff(a, Normalized(a).value);
      NormalizedIff(b, Normalized(a).value);
    }
    if lines :| IsVariant(a, lines) && IsVariant(b, lines) {
      NormalizedIff(a, lines);
      NormalizedIff(b, lines);
    }
  }

  lemma {:induction false} PlainIsOwnVariant(lines: Bytes)
    requires '\r' !in lines
    ensures IsVariant(lines, lines)
    decreases |lines|
  {
    if lines != "" {
      assert lines == [lines[0]] + lines[1..];
      PlainIsOwnVariant(lines[1..]);
    }
  }

  // The result is free of carriage returns, and normalising it again changes nothing.
  lemma NormalizedIdempotent(data: Bytes)
    requires Normalized(data).Some?
    ensures '\r' !in Normalized(data).value && Normalized(Normalized(data).value) == Normalized(data)
  {
    PlainIsOwnVariant(Normalized(data).value);
    NormalizedIff(Normalized(data).value, Normalized(data).value);
  }
}
