/** The framing in which git answers a batch of object requests, and its reader
    in scripts/check_no_ignored_lean_sources.py. */
module BlobFraming {
  import opened Options
  import opened Text
  import opened Decimal
  import opened LineEndings

  // ----- Writing -----

  function Header(id: string, size: nat): string {
    id + [' '] + "blob" + [' '] + Digits(size)
  }

  function Frame(id: string, blob: Bytes): Bytes {
    Header(id, |blob|) + ['\n'] + blob + ['\n']
  }

  function Response(ids: seq<string>, blobs: seq<Bytes>): Bytes
    requires |ids| == |blobs|
  {
    if ids == [] then "" else Frame(ids[0], blobs[0]) + Response(ids[1..], blobs[1..])
  }

  // ----- Reading -----

  // The line up to its newline, and what is left of the stream.
  function ReadLine(stream: Bytes): (r: (string, Bytes))
    ensures |r.0| + |r.1| <= |stream|
  {
    if stream == "" then ("", "")
    else if stream[0] == '\n' then ("", stream[1..])
    else
      var (line, rest) := ReadLine(stream[1..]);
      ([stream[0]] + line, rest)
  }

  // Bytes outside ASCII become the replacement character.
  function DecodeAscii(line: Bytes): string {
    seq(|line|, i requires 0 <= i < |line| => if line[i] as int < 128 then line[i] else '\U{FFFD}')
  }

  // The size a header announces for the expected object.
  function HeaderSize(line: Bytes, expected: string): Option<nat> {
    var fields := Split(Trim(DecodeAscii(line)), ' ');
    if |fields| != 3 || fields[0] != expected || fields[1] != "blob" || !AllDigits(fields[2]) then None
    else Some(Value(fields[2]))
  }

  // One framed object: its bytes and the rest of the stream.
  function ReadFrame(stream: Bytes, expected: string): Option<(Bytes, Bytes)> {
    var (line, rest) := ReadLine(stream);
    match HeaderSize(line, expected)
    case None => None
    case Some(size) =>
      if size < |rest| && rest[size] == '\n' then Some((rest[..size], rest[size + 1..])) else None
  }

  function ReadBlobs(stream: Bytes, ids: seq<string>): Option<seq<Bytes>>
    decreases |ids|
  {
    if ids == [] then Some([])
    else match ReadFrame(stream, ids[0])
      case None => None
      case Some((blob, rest)) =>
        match ReadBlobs(rest, ids[1..])
        case None => None
        case Some(blobs) => Some([blob] + blobs)
  }

  predicate ReadSoFar(all: Bytes, ids: seq<string>, i: nat, stream: Bytes, blobs: seq<Bytes>) {
    i <= |ids| &&
    match ReadBlobs(stream, ids[i..])
    case None => ReadBlobs(all, ids) == None
    case Some(rest) => ReadBlobs(all, ids) == Some(blobs + rest)
  }

  method BatchBlobContents(all: Bytes, ids: seq<string>) returns (result: Option<seq<Bytes>>)
    ensures result == ReadBlobs(all, ids)
  {
    var stream, blobs := all, [];
    assert ids[0..] == ids;
    assert ReadBlobs(all, ids).Some? ==> [] + ReadBlobs(all, ids).value == ReadBlobs(all, ids).value;
    for i := 0 to |ids|
      invariant ReadSoFar(all, ids, i, stream, blobs)
    {
      assert ids[i..][1..] == ids[i + 1..];
      var frame := ReadFrame(stream, ids[i]);
      if frame.None? {
        return None;
      }
      ghost var later := ReadBlobs(frame.value.1, ids[i + 1..]);
      assert later.Some? ==> blobs + ([frame.value.0] + later.value) == (blobs + [frame.value.0]) + later.value;
      blobs := blobs + [frame.value.0];
      stream := frame.value.1;
    }
    assert ReadBlobs(stream, ids[|ids|..]) == Some([]);
    assert blobs + [] == blobs;
    return Some(blobs);
  }

  // ----- Reading back what was written -----

  lemma {:induction false} ReadLineBack(line: string, rest: Bytes)
    requires Without(line, '\n')
    ensures ReadLine(line + ['\n'] + rest) == (line, rest)
  {
    var stream := line + ['\n'] + rest;
    if line == "" {
      assert stream[1..] == rest;
    } else {
      ReadLineBack(line[1..], rest);
      assert stream[1..] == line[1..] + ['\n'] + rest;
      assert [line[0]] + line[1..] == line;
    }
  }

  // What object names must be: one ASCII word.
  predicate IsName(id: string) {
    id != "" && forall i | 0 <= i < |id| :: id[i] as int < 128 && !IsSpace(id[i])
  }

  // A header is ASCII, has no newline, and begins and ends with no white space.
  lemma HeaderPlain(id: string, size: nat)
    requires IsName(id)
    ensures AllDigits(Digits(size)) && Value(Digits(size)) == size
    ensures Without(Header(id, size), '\n') && Without(Digits(size), ' ')
    ensures Trim(Header(id, size)) == Header(id, size) == DecodeAscii(Header(id, size))
  {
    DigitsReadBack(size);
    var header := Header(id, size);
    assert forall i | 0 <= i < |header| :: header[i] as int < 128 && header[i] != '\n';
    assert header[0] == id[0] && IsDigit(header[|header| - 1]);
    assert DecodeAscii(header) == header;
  }

  lemma HeaderReadBack(id: string, size: nat)
    requires IsName(id)
    ensures Without(Header(id, size), '\n') && HeaderSize(Header(id, size), id) == Some(size)
  {
    HeaderPlain(id, size);
    SplitWithout(id, ' ');
    SplitWithout("blob", ' ');
    SplitWithout(Digits(size), ' ');
    SplitConcat(id + [' '] + "blob", Digits(size), ' ');
    SplitConcat(id, "blob", ' ');
    assert Split(Header(id, size), ' ') == [id, "blob", Digits(size)];
  }

  lemma FrameReadBack(id: string, blob: Bytes, rest: Bytes)
    requires IsName(id)
    ensures ReadFrame(Frame(id, blob) + rest, id) == Some((blob, rest))
  {
    HeaderReadBack(id, |blob|);
    var body := blob + ['\n'] + rest;
    assert Frame(id, blob) + rest == Header(id, |blob|) + ['\n'] + body;
    ReadLineBack(Header(id, |blob|), body);
    assert body[..|blob|] == blob && body[|blob| + 1..] == rest;
  }

  // Whatever the objects contain, newlines and text that looks like a header
  // included, the reader recovers exactly the list that was framed.
  lemma {:induction false} BlobsReadBack(ids: seq<string>, blobs: seq<Bytes>)
    requires |ids| == |blobs| && forall id | id in ids :: IsName(id)
    ensures ReadBlobs(Response(ids, blobs), ids) == Some(blobs)
    decreases |ids|
  {
    if ids != [] {
      BlobsReadBack(ids[1..], blobs[1..]);
      FrameReadBack(ids[0], blobs[0], Response(ids[1..], blobs[1..]));
      assert [blobs[0]] + blobs[1..] == blobs;
    }
  }

  lemma {:induction false} ReadLineUnended(line: string)
    requires Without(line, '\n')
    ensures ReadLine(line) == (line, "")
  {
    if line != "" {
      ReadLineUnended(line[1..]);
      assert [line[0]] + line[1..] == line;
    }
  }

  lemma FrameTruncated(id: string, blob: Bytes, keep: nat)
    requires IsName(id) && keep < |Frame(id, blob)|
    ensures ReadFrame(Frame(id, blob)[..keep], id) == None
  {
    var header := Header(id, |blob|);
    HeaderReadBack(id, |blob|);
    if keep <= |header| {
      assert Frame(id, blob)[..keep] == header[..keep];
      ReadLineUnended(header[..keep]);
    } else {
      var rest := blob[..keep - |header| - 1];
      assert Frame(id, blob)[..keep] == header + ['\n'] + rest;
      ReadLineBack(header, rest);
    }
  }

  // A response that ends early, wherever it does, is refused: never read as
  // fewer or shorter objects.
  lemma {:induction false} TruncatedRefused(ids: seq<string>, blobs: seq<Bytes>, keep: nat)
    requires |ids| == |blobs| && forall id | id in ids :: IsName(id)
    requires keep < |Response(ids, blobs)|
    ensures ReadBlobs(Response(ids, blobs)[..keep], ids) == None
    decreases |ids|
  {
    var all := Response(ids, blobs);
    var frame, later := Frame(ids[0], blobs[0]), Response(ids[1..], blobs[1..]);
    if keep < |frame| {
      assert all[..keep] == frame[..keep];
      FrameTruncated(ids[0], blobs[0], keep);
    } else {
      assert all[..keep] == frame + later[..keep - |frame|];
      FrameReadBack(ids[0], blobs[0], later[..keep - |frame|]);
      TruncatedRefused(ids[1..], blobs[1..], keep - |frame|);
    }
  }

  lemma {:induction false} LineRead(stream: Bytes)
    ensures var (line, rest) := ReadLine(stream);
            Without(line, '\n') && (stream == line + ['\n'] + rest || (stream == line && rest == ""))
  {
    if stream != "" && stream[0] != '\n' {
      LineRead(stream[1..]);
      assert stream == [stream[0]] + stream[1..];
    } else if stream != "" {
      assert stream == ['\n'] + stream[1..];
    }
  }

  // Whatever is read as an object stood in the stream, framed: a header line that
  // announces that very object and its size, its bytes, and a newline.
  lemma FrameMeans(stream: Bytes, expected: string, blob: Bytes, rest: Bytes)
    ensures ReadFrame(stream, expected) == Some((blob, rest)) <==>
            exists line :: IsFramed(stream, expected, line, blob, rest)
  {
    var (line, after) := ReadLine(stream);
    LineRead(stream);
    if ReadFrame(stream, expected) == Some((blob, rest)) {
      assert after == blob + ['\n'] + rest;
      assert stream == line + ['\n'] + after;
      assert IsFramed(stream, expected, line, blob, rest);
    }
    if l :| IsFramed(stream, expected, l, blob, rest) {
      var body := blob + ['\n'] + rest;
      ReadLineBack(l, body);
      assert body[..|blob|] == blob && body[|blob| + 1..] == rest;
    }
  }

  predicate IsFramed(stream: Bytes, expected: string, line: Bytes, blob: Bytes, rest: Bytes) {
    && Without(line, '\n') && Announces(line, expected, |blob|)
    && stream == line + ['\n'] + (blob + ['\n'] + rest)
  }

  // Decoded and trimmed: the object's name, `blob` and the size, one space apart.
  predicate Announces(line: Bytes, expected: string, size: nat) {
    exists fields | fields == Split(Trim(DecodeAscii(line)), ' ') ::
      |fields| == 3 && fields[0] == expected && fields[1] == "blob" && AllDigits(fields[2]) && Value(fields[2]) == size
  }

  // An answer for another object is refused.
  lemma OtherObjectRefused(id: string, expected: string, blob: Bytes, rest: Bytes)
    requires IsName(id) && id != expected
    ensures ReadFrame(Frame(id, blob) + rest, expected) == None
  {
    HeaderReadBack(id, |blob|);
    var body := blob + ['\n'] + rest;
    assert Frame(id, blob) + rest == Header(id, |blob|) + ['\n'] + body;
    ReadLineBack(Header(id, |blob|), body);
  }
}
