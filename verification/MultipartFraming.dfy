/** Multipart framing as Alamofire writes it, and a reader of multipart bodies that follows section 5.1.1 of
    RFC 2046 and knows nothing of the writer. */
module MultipartFraming {
  import opened Bits

  type Data = seq<byte>

  const CRLF: Data := [13, 10]
  const DASHES: Data := [45, 45]
  const COLON: Data := [58, 32]

  datatype Header = Header(name: Data, value: Data)

  datatype Error =
    | BodyPartError(code: int) | InputReadFailed | UnexpectedLength(expected: nat, read: nat) | OutputWriteFailed

  /** A body part: `body` is what its stream still has to deliver, `fails` whether the stream then reports an
      error instead of its end, `declared` the promised length. */
  datatype Part = Part(headers: seq<Header>, body: Data, fails: bool, declared: nat, initial: bool, final: bool)

  // ---- The writer ----------------------------------------------------------------------------------

  datatype BoundaryType = Initial | Encapsulated | Final

  function BoundaryData(kind: BoundaryType, boundary: Data): Data {
    match kind
    case Initial => DASHES + boundary + CRLF
    case Encapsulated => CRLF + DASHES + boundary + CRLF
    case Final => CRLF + DASHES + boundary + DASHES + CRLF
  }

  function HeaderLine(h: Header): Data {
    h.name + COLON + h.value
  }

  function HeaderLines(hs: seq<Header>): Data {
    if hs == [] then [] else HeaderLine(hs[0]) + CRLF + HeaderLines(hs[1..])
  }

  function EncodeHeaders(hs: seq<Header>): Data {
    HeaderLines(hs) + CRLF
  }

  /** Delimiter and headers of a part. */
  function Opening(p: Part, boundary: Data): Data {
    BoundaryData(if p.initial then Initial else Encapsulated, boundary) + EncodeHeaders(p.headers)
  }

  function Closing(p: Part, boundary: Data): Data {
    if p.final then BoundaryData(Final, boundary) else []
  }

  function EncodePart(p: Part, boundary: Data): Data {
    Opening(p, boundary) + p.body + Closing(p, boundary)
  }

  /** The first part opens the body and the last one closes it. */
  function Flagged(ps: seq<Part>): seq<Part> {
    if ps == [] then []
    else
      var first := ps[0 := ps[0].(initial := true)];
      first[|ps| - 1 := first[|ps| - 1].(final := true)]
  }

  /** Encoded bytes, or what went wrong. */
  datatype Encoded = Bytes(data: Data) | Thrown(error: Error)

  function EncodeBody(p: Part): Encoded {
    if p.fails then Thrown(InputReadFailed)
    else if |p.body| != p.declared then Thrown(UnexpectedLength(p.declared, |p.body|))
    else Bytes(p.body)
  }

  /** What `encode` returns for parts whose flags are set. */
  function InMemory(ps: seq<Part>, boundary: Data): Encoded {
    if ps == [] then Bytes([])
    else if EncodeBody(ps[0]).Thrown? then EncodeBody(ps[0])
    else
      match InMemory(ps[1..], boundary)
      case Thrown(e) => Thrown(e)
      case Bytes(rest) => Bytes(EncodePart(ps[0], boundary) + rest)
  }

  /** Bytes handed to the output, and the error that ended the writing, if any. */
  datatype Emission = Emission(data: Data, error: Option<Error>)

  function Then(first: Emission, second: Emission): Emission {
    if first.error.Some? then first else Emission(first.data + second.data, second.error)
  }

  function EmitPart(p: Part, boundary: Data): Emission {
    if p.fails then Emission(Opening(p, boundary) + p.body, Some(InputReadFailed))
    else Emission(EncodePart(p, boundary), None)
  }

  /** What `writeEncodedData` hands to an output that accepts everything. */
  function Streamed(ps: seq<Part>, boundary: Data): Emission {
    if ps == [] then Emission([], None)
    else Then(EmitPart(ps[0], boundary), Streamed(ps[1..], boundary))
  }

  /** The parts after a pass over their streams, up to and including the first that stops it. */
  function Spent(ps: seq<Part>, strict: bool): seq<Part> {
    if ps == [] then []
    else
      [ps[0].(body := [])]
        + (if ps[0].fails || (strict && |ps[0].body| != ps[0].declared) then ps[1..] else Spent(ps[1..], strict))
  }

  predicate LengthsMatch(ps: seq<Part>) {
    forall i :: 0 <= i < |ps| ==> |ps[i].body| == ps[i].declared
  }

  /** The streamed form and the in-memory form agree: `encode` succeeds exactly when streaming does and every
      stream delivered its declared length, and then with the same bytes. */
  lemma {:induction false} StreamedEqualsInMemory(ps: seq<Part>, boundary: Data)
    ensures InMemory(ps, boundary).Bytes? <==> Streamed(ps, boundary).error.None? && LengthsMatch(ps)
    ensures InMemory(ps, boundary).Bytes? ==> InMemory(ps, boundary).data == Streamed(ps, boundary).data
  {
    hide EncodePart, Opening;
    if ps != [] {
      StreamedEqualsInMemory(ps[1..], boundary);
      assert LengthsMatch(ps) <==> |ps[0].body| == ps[0].declared && LengthsMatch(ps[1..]) by {
        assert forall i :: 0 <= i < |ps| - 1 ==> ps[1..][i] == ps[i + 1];
        if LengthsMatch(ps[1..]) && |ps[0].body| == ps[0].declared {
          forall i | 0 <= i < |ps| ensures |ps[i].body| == ps[i].declared {
            if i > 0 { assert ps[1..][i - 1] == ps[i]; }
          }
        }
      }
    }
  }

  // ---- The reader ----------------------------------------------------------------------------------

  predicate StartsWith(s: Data, p: Data) {
    |p| <= |s| && s[..|p|] == p
  }

  predicate At(s: Data, p: Data, i: int) {
    0 <= i <= |s| - |p| && s[i..i + |p|] == p
  }

  ghost predicate Contains(s: Data, p: Data) {
    exists i :: At(s, p, i)
  }

  /** First occurrence. */
  function Find(s: Data, p: Data): (r: Option<nat>)
    ensures r.Some? ==> At(s, p, r.value) && forall i :: At(s, p, i) ==> r.value <= i
    ensures r.None? ==> !Contains(s, p)
  {
    if StartsWith(s, p) then Some(0)
    else if s == [] then None
    else
      assert forall i :: At(s, p, i) ==> i > 0 && At(s[1..], p, i - 1) by {
        forall i | At(s, p, i) ensures i > 0 && At(s[1..], p, i - 1) {
          assert s[1..][i - 1..i - 1 + |p|] == s[i..i + |p|];
        }
      }
      match Find(s[1..], p)
      case None => None
      case Some(i) =>
        assert s[1..][i..i + |p|] == s[i + 1..i + 1 + |p|];
        Some(i + 1)
  }

  function SkipPadding(s: Data): (r: Data)
    ensures |r| <= |s|
  {
    if s != [] && s[0] in {9, 32} then SkipPadding(s[1..]) else s
  }

  /** Reads on behind a delimiter: the close delimiter, or the line end and the part up to the next
      delimiter. No line of a part, the first included, may start like a delimiter line. */
  function BodyParts(rest: Data, delimiter: Data): Option<(seq<Data>, Data)>
    requires delimiter != []
    decreases |rest|
  {
    if StartsWith(rest, DASHES) then Some(([], rest[2..]))
    else
      var line := SkipPadding(rest);
      if !StartsWith(line, CRLF) then None
      else
        var next := Find(line, delimiter);
        if next.None? || next.value < 2 then None
        else
          match BodyParts(line[next.value + |delimiter|..], delimiter)
          case None => None
          case Some((parts, epilogue)) => Some(([line[2..next.value]] + parts, epilogue))
  }

  function Delimiter(boundary: Data): Data {
    CRLF + DASHES + boundary
  }

  /** The parts of a multipart body and what follows its close delimiter. The first delimiter needs no line
      break in front of it when the body starts with it. */
  function Split(body: Data, boundary: Data): Option<(seq<Data>, Data)> {
    var first := Find(CRLF + body, Delimiter(boundary));
    if first.None? then None
    else BodyParts((CRLF + body)[first.value + |Delimiter(boundary)|..], Delimiter(boundary))
  }

  /** One header line, without its line end. */
  function ReadHeader(line: Data): Option<Header> {
    var colon := Find(line, [58]);
    if colon.None? || !StartsWith(line[colon.value..], COLON) then None
    else Some(Header(line[..colon.value], line[colon.value + 2..]))
  }

  /** Header lines up to the empty line, and the bytes behind it. */
  function ReadPart(content: Data): Option<(seq<Header>, Data)>
    decreases |content|
  {
    var end := Find(content, CRLF);
    if end.None? then None
    else if end.value == 0 then Some(([], content[2..]))
    else
      match ReadHeader(content[..end.value])
      case None => None
      case Some(h) =>
        match ReadPart(content[end.value + 2..])
        case None => None
        case Some((hs, body)) => Some(([h] + hs, body))
  }

  function ReadParts(contents: seq<Data>): Option<seq<(seq<Header>, Data)>> {
    if contents == [] then Some([])
    else
      match (ReadPart(contents[0]), ReadParts(contents[1..]))
      case (Some(p), Some(ps)) => Some([p] + ps)
      case _ => None
  }

  /** The headers and bytes of every part. */
  function ReadForm(body: Data, boundary: Data): Option<seq<(seq<Header>, Data)>> {
    match Split(body, boundary)
    case Some((contents, epilogue)) => ReadParts(contents)
    case None => None
  }

  // ---- Searching for a pattern that cannot overlap itself ------------------------------------------------

  /** The pattern's first byte occurs nowhere else in it. */
  predicate Unbordered(p: Data) {
    p != [] && p[0] !in p[1..]
  }

  /** Two occurrences do not overlap. */
  lemma NoOverlap(s: Data, p: Data, i: int, j: int)
    requires Unbordered(p) && At(s, p, i) && At(s, p, j) && i < j
    ensures i + |p| <= j
  {
    forall q | i < q < i + |p| ensures s[q] != p[0] {
      assert s[i..i + |p|][q - i] == p[q - i] == p[1..][q - i - 1];
    }
    assert s[j] == s[j..j + |p|][0] == p[0];
  }

  /** In front of a pattern that cannot overlap itself, the first occurrence is the one behind `s` exactly when
      `s` contains none; otherwise it lies within `s`. */
  lemma FindBehind(s: Data, p: Data, t: Data)
    requires Unbordered(p)
    ensures !Contains(s, p) ==> Find(s + p + t, p) == Some(|s|)
    ensures Contains(s, p) ==> exists i :: Find(s + p + t, p) == Some(i) && i + |p| <= |s|
  {
    var whole := s + p + t;
    assert At(whole, p, |s|) by { assert whole[|s|..|s| + |p|] == p; }
    var i := Find(whole, p).value;
    if i < |s| {
      if i + |p| <= |s| {
        assert s[i..i + |p|] == whole[i..i + |p|];
        assert At(s, p, i);
      } else {
        NoOverlap(whole, p, i, |s|);
        assert false;
      }
    }
    if Contains(s, p) {
      var j :| At(s, p, j);
      assert whole[j..j + |p|] == s[j..j + |p|];
      assert At(whole, p, j);
    }
  }

  lemma DelimiterUnbordered(boundary: Data)
    requires 13 !in boundary
    ensures Unbordered(Delimiter(boundary))
  {
    assert Delimiter(boundary)[1..] == [10, 45, 45] + boundary;
  }

  // ---- Splitting what was written -----------------------------------------------------------------------

  /** Headers and bytes of a part, as framed. */
  function Content(p: Part): Data {
    EncodeHeaders(p.headers) + p.body
  }

  function Contents(ps: seq<Part>): seq<Data> {
    if ps == [] then [] else [Content(ps[0])] + Contents(ps[1..])
  }

  /** No line of the part starts like a delimiter line. */
  ghost predicate Clean(p: Part, boundary: Data) {
    !Contains(CRLF + Content(p), Delimiter(boundary))
  }

  ghost predicate AllClean(ps: seq<Part>, boundary: Data) {
    forall i :: 0 <= i < |ps| ==> Clean(ps[i], boundary)
  }

  /** What the framing puts behind a delimiter when `ps` are the parts still to come. */
  function Behind(ps: seq<Part>, boundary: Data): Data {
    if ps == [] then DASHES + CRLF
    else (CRLF + Content(ps[0])) + Delimiter(boundary) + Behind(ps[1..], boundary)
  }

  /** Parts that follow an opening part, the last of them closing the body. */
  predicate Following(ps: seq<Part>) {
    forall i :: 0 <= i < |ps| ==> !ps[i].initial && (ps[i].final <==> i == |ps| - 1)
  }

  function AllParts(ps: seq<Part>, boundary: Data): Data {
    if ps == [] then [] else EncodePart(ps[0], boundary) + AllParts(ps[1..], boundary)
  }

  lemma {:induction false} InMemoryBytes(ps: seq<Part>, boundary: Data)
    ensures InMemory(ps, boundary).Bytes? ==> InMemory(ps, boundary).data == AllParts(ps, boundary)
  {
    hide EncodePart;
    if ps != [] { InMemoryBytes(ps[1..], boundary); }
  }

  lemma {:induction false} FollowingBytes(ps: seq<Part>, boundary: Data)
    requires ps != [] && Following(ps)
    ensures AllParts(ps, boundary) == Delimiter(boundary) + Behind(ps, boundary)
  {
    hide Delimiter, EncodePart, Content, BoundaryData;
    var p, others := ps[0], ps[1..];
    var d, line := Delimiter(boundary), CRLF + Content(p);
    FollowingPart(p, boundary);
    if others == [] {
      assert EncodePart(p, boundary) + [] == EncodePart(p, boundary);
      assert Behind(others, boundary) == DASHES + CRLF;
    } else {
      FollowingBytes(others, boundary);
      assert d + line + [] == d + line;
    }
    Regroup3(d, line, d, Behind(others, boundary));
  }

  lemma Regroup3(a: Data, b: Data, c: Data, d: Data)
    ensures a + (b + c + d) == a + b + (c + d)
  {}

  lemma FollowingPart(p: Part, boundary: Data)
    requires !p.initial
    ensures EncodePart(p, boundary) == Delimiter(boundary) + (CRLF + Content(p)) + Closing(p, boundary)
    ensures BoundaryData(Final, boundary) == Delimiter(boundary) + (DASHES + CRLF)
  {
    hide EncodeHeaders;
  }

  /** Nothing has been encoded yet. */
  predicate Fresh(ps: seq<Part>) {
    forall i :: 0 <= i < |ps| ==> !ps[i].initial && !ps[i].final
  }

  /** The bytes `encode` produces on a fresh form, seen from behind the opening delimiter. */
  lemma FormBytes(ps: seq<Part>, boundary: Data)
    requires ps != [] && Fresh(ps)
    ensures CRLF + AllParts(Flagged(ps), boundary) == Delimiter(boundary) + Behind(Flagged(ps), boundary)
  {
    hide EncodePart, Delimiter, EncodeHeaders;
    var fs := Flagged(ps);
    var middle := fs[0].(initial := false);
    var gs := [middle] + fs[1..];
    assert Following(gs);
    FollowingBytes(gs, boundary);
    assert gs[1..] == fs[1..];
    assert AllParts(gs, boundary) == EncodePart(middle, boundary) + AllParts(fs[1..], boundary);
    assert AllParts(fs, boundary) == EncodePart(fs[0], boundary) + AllParts(fs[1..], boundary);
    assert EncodePart(middle, boundary) == CRLF + EncodePart(fs[0], boundary) by { OpeningPart(fs[0], boundary); }
    assert Behind(gs, boundary) == Behind(fs, boundary);
  }

  lemma OpeningPart(p: Part, boundary: Data)
    requires p.initial
    ensures EncodePart(p.(initial := false), boundary) == CRLF + EncodePart(p, boundary)
  {
    hide EncodeHeaders;
    var h, c := EncodeHeaders(p.headers), Closing(p, boundary);
    assert BoundaryData(Encapsulated, boundary) == CRLF + BoundaryData(Initial, boundary);
    assert CRLF + BoundaryData(Initial, boundary) + h + p.body + c ==
      CRLF + (BoundaryData(Initial, boundary) + h + p.body + c);
  }

  /** Reading one framed part: it is recovered when it is clean, and something else is found when it is not. */
  lemma BodyPartsStep(content: Data, d: Data, behind: Data)
    requires Unbordered(d)
    ensures var r, next := BodyParts((CRLF + content) + d + behind, d), BodyParts(behind, d);
      && (!Contains(CRLF + content, d) && next.None? ==> r.None?)
      && (!Contains(CRLF + content, d) && next.Some? ==> r == Some(([content] + next.value.0, next.value.1)))
      && (Contains(CRLF + content, d) && r.Some? ==> r.value.0 != [] && |r.value.0[0]| < |content|)
  {
    hide Find, Contains, At;
    var line := CRLF + content;
    var rest := line + d + behind;
    FindBehind(line, d, behind);
    assert rest[0] == 13 && rest[1] == 10;
    assert SkipPadding(rest) == rest;
    assert !StartsWith(rest, DASHES);
    assert StartsWith(rest, CRLF);
    if !Contains(line, d) {
      assert rest[|line| + |d|..] == behind;
      assert rest[2..|line|] == content;
    } else {
      var i :| Find(rest, d) == Some(i) && i + |d| <= |line|;
      assert i >= 2 ==> |rest[2..i]| < |content|;
    }
  }

  lemma {:induction false} BodyPartsBehind(ps: seq<Part>, boundary: Data)
    requires 13 !in boundary
    ensures var r := BodyParts(Behind(ps, boundary), Delimiter(boundary));
      && (AllClean(ps, boundary) ==> r == Some((Contents(ps), CRLF)))
      && (r.Some? && r.value.0 == Contents(ps) ==> AllClean(ps, boundary))
  {
    hide Delimiter, EncodeHeaders, Find, BodyParts, Contains, Content;
    var d, rest := Delimiter(boundary), Behind(ps, boundary);
    DelimiterUnbordered(boundary);
    if ps == [] {
      CloseDelimiter(d);
    } else {
      BodyPartsStep(Content(ps[0]), d, Behind(ps[1..], boundary));
      BodyPartsBehind(ps[1..], boundary);
      assert AllClean(ps, boundary) <==> Clean(ps[0], boundary) && AllClean(ps[1..], boundary) by {
        assert forall k :: 0 <= k < |ps| - 1 ==> ps[1..][k] == ps[k + 1];
        assert forall k :: 1 <= k < |ps| ==> ps[k] == ps[1..][k - 1];
      }
      var next := BodyParts(Behind(ps[1..], boundary), d);
      if next.Some? && Clean(ps[0], boundary) {
        assert ([Content(ps[0])] + next.value.0)[1..] == next.value.0;
        assert Contents(ps)[1..] == Contents(ps[1..]);
      }
    }
  }

  lemma CloseDelimiter(d: Data)
    requires d != []
    ensures BodyParts(DASHES + CRLF, d) == Some(([], CRLF))
  {
    assert StartsWith(DASHES + CRLF, DASHES);
    assert (DASHES + CRLF)[2..] == CRLF;
  }

  lemma {:induction false} SameContents(ps: seq<Part>, qs: seq<Part>)
    requires |ps| == |qs| && forall i :: 0 <= i < |ps| ==> Content(ps[i]) == Content(qs[i])
    ensures Contents(ps) == Contents(qs)
  {
    hide Content;
    if ps != [] {
      assert forall i :: 0 <= i < |ps| - 1 ==> ps[1..][i] == ps[i + 1] && qs[1..][i] == qs[i + 1];
      SameContents(ps[1..], qs[1..]);
    }
  }

  /** The framing of one or more parts is read back part by part, with nothing but the last line end left over,
      exactly when no line of a part starts like a delimiter line; an empty form is not a multipart body. */
  lemma SplitRecoversParts(ps: seq<Part>, boundary: Data)
    requires Fresh(ps) && 13 !in boundary && InMemory(Flagged(ps), boundary).Bytes?
    ensures var r := Split(InMemory(Flagged(ps), boundary).data, boundary);
      && (ps != [] && AllClean(ps, boundary) ==> r == Some((Contents(ps), CRLF)))
      && (r.Some? && r.value.0 == Contents(ps) ==> ps != [] && AllClean(ps, boundary))
  {
    hide AllParts, Behind, InMemory, BodyParts, EncodeHeaders, Contains;
    var fs, d := Flagged(ps), Delimiter(boundary);
    InMemoryBytes(fs, boundary);
    if ps == [] {
      assert AllParts(fs, boundary) == [] by { NoParts(boundary); }
      assert forall i :: !At(CRLF + [], d, i);
    } else {
      FormBytes(ps, boundary);
      BodyPartsBehind(fs, boundary);
      SameContents(fs, ps);
      var whole := d + Behind(fs, boundary);
      assert At(whole, d, 0);
      assert Find(whole, d) == Some(0);
      assert whole[|d|..] == Behind(fs, boundary);
      assert AllClean(fs, boundary) <==> AllClean(ps, boundary) by {
        assert forall i :: 0 <= i < |ps| ==> Content(fs[i]) == Content(ps[i]);
      }
    }
  }

  lemma NoParts(boundary: Data)
    ensures AllParts([], boundary) == []
  {}

  // ---- Reading the headers --------------------------------------------------------------------------------

  /** The line is one line, and its name ends at its first colon. */
  ghost predicate Readable(h: Header) {
    58 !in h.name && !Contains(HeaderLine(h), CRLF)
  }

  ghost predicate AllReadable(hs: seq<Header>) {
    forall i :: 0 <= i < |hs| ==> Readable(hs[i])
  }

  /** A header that is read is the one that was written on the line. */
  lemma ReadHeaderSound(line: Data)
    ensures ReadHeader(line).Some? ==> HeaderLine(ReadHeader(line).value) == line && 58 !in ReadHeader(line).value.name
  {
    var r := ReadHeader(line);
    if r.Some? {
      var i := Find(line, [58]).value;
      assert line == line[..i] + line[i..][..2] + line[i + 2..];
      forall k | 0 <= k < i ensures line[k] != 58 {
        assert line[k] == 58 ==> At(line, [58], k) by { assert line[k..k + 1] == [line[k]]; }
      }
    }
  }

  lemma ContainsByte(s: Data, b: byte)
    ensures Contains(s, [b]) ==> b in s
  {
    if i :| At(s, [b], i) { assert s[i..i + 1][0] == b; }
  }

  lemma ReadHeaderExact(h: Header)
    ensures ReadHeader(HeaderLine(h)) == Some(h) <==> 58 !in h.name
  {
    var line := HeaderLine(h);
    ReadHeaderSound(line);
    if 58 !in h.name {
      assert line == h.name + [58] + ([32] + h.value);
      ContainsByte(h.name, 58);
      FindBehind(h.name, [58], [32] + h.value);
      assert line[|h.name|..][..2] == COLON;
      assert line[..|h.name|] == h.name && line[|h.name| + 2..] == h.value;
    }
  }

  lemma {:induction false} ReadPartSound(content: Data)
    ensures ReadPart(content).Some? ==> EncodeHeaders(ReadPart(content).value.0) + ReadPart(content).value.1 == content
    decreases |content|
  {
    hide HeaderLine, HeaderLines, ReadHeader, At, Contains;
    var r, end := ReadPart(content), Find(content, CRLF);
    if r.Some? {
      EndOfLine(content);
      var i := end.value;
      if i > 0 {
        ReadPartSound(content[i + 2..]);
        ReadHeaderSound(content[..i]);
        var h, next := ReadHeader(content[..i]).value, ReadPart(content[i + 2..]).value;
        assert r.value == ([h] + next.0, next.1);
        HeaderLinesCons(h, next.0);
        Regroup(HeaderLine(h), CRLF, HeaderLines(next.0), CRLF, next.1);
      } else {
        NoHeaderLines();
        assert content == CRLF + content[2..];
      }
    }
  }

  lemma NoHeaderLines()
    ensures EncodeHeaders([]) == CRLF
  {}

  lemma HeaderLinesCons(h: Header, hs: seq<Header>)
    ensures HeaderLines([h] + hs) == HeaderLine(h) + CRLF + HeaderLines(hs)
  {
    assert ([h] + hs)[1..] == hs;
  }

  lemma Regroup(a: Data, b: Data, c: Data, d: Data, e: Data)
    ensures ((a + b + c) + d) + e == a + b + ((c + d) + e)
  {}

  lemma EndOfLine(content: Data)
    ensures Find(content, CRLF).Some? ==>
      var i := Find(content, CRLF).value; i + 2 <= |content| && content == content[..i] + CRLF + content[i + 2..]
  {
    hide At, Contains;
    if Find(content, CRLF).Some? { CutAt(content, CRLF, Find(content, CRLF).value); }
  }

  lemma CutAt(s: Data, p: Data, i: nat)
    requires At(s, p, i)
    ensures i + |p| <= |s| && s == s[..i] + p + s[i + |p|..]
  {
    assert s == s[..i] + s[i..i + |p|] + s[i + |p|..];
  }

  /** One header line in front of the rest of a part. */
  lemma ReadPartStep(h: Header, rest: Data)
    ensures var r := ReadPart(HeaderLine(h) + CRLF + rest);
      && (Readable(h) && ReadPart(rest).None? ==> r.None?)
      && (Readable(h) && ReadPart(rest).Some? ==> r == Some(([h] + ReadPart(rest).value.0, ReadPart(rest).value.1)))
      && (!Readable(h) && r.Some? && r.value.0 != [] ==> r.value.0[0] != h)
  {
    hide Find, At, HeaderLine, ReadHeader;
    var line := HeaderLine(h);
    var content := line + CRLF + rest;
    FindBehind(line, CRLF, rest);
    ReadHeaderExact(h);
    assert |line| > 0 by { LineNotEmpty(h); }
    if !Contains(line, CRLF) {
      assert content[..|line|] == line;
      assert content[|line| + 2..] == rest;
    } else {
      var i :| Find(content, CRLF) == Some(i) && i + 2 <= |line|;
      ReadHeaderSound(content[..i]);
    }
  }

  lemma LineNotEmpty(h: Header)
    ensures HeaderLine(h) != []
  {}

  /** Headers and bytes are told apart exactly when every header is one line whose name has no colon. */
  lemma {:induction false} ReadPartExact(hs: seq<Header>, body: Data)
    ensures ReadPart(EncodeHeaders(hs) + body) == Some((hs, body)) <==> AllReadable(hs)
    ensures ReadPart(EncodeHeaders(hs) + body).Some? && ReadPart(EncodeHeaders(hs) + body).value.0 == hs ==>
      AllReadable(hs)
  {
    hide ReadPart, HeaderLine, Readable;
    if hs == [] {
      EmptyLine(body);
      assert EncodeHeaders(hs) + body == CRLF + body;
    } else {
      var rest := EncodeHeaders(hs[1..]) + body;
      assert EncodeHeaders(hs) + body == HeaderLine(hs[0]) + CRLF + rest;
      ReadPartStep(hs[0], rest);
      ReadPartExact(hs[1..], body);
      assert AllReadable(hs) <==> Readable(hs[0]) && AllReadable(hs[1..]) by {
        assert forall k :: 0 <= k < |hs| - 1 ==> hs[1..][k] == hs[k + 1];
        assert forall k :: 1 <= k < |hs| ==> hs[k] == hs[1..][k - 1];
      }
      var r := ReadPart(rest);
      if Readable(hs[0]) && r.Some? {
        assert ([hs[0]] + r.value.0)[1..] == r.value.0;
        assert hs == [hs[0]] + hs[1..];
      }
    }
  }

  lemma EmptyLine(body: Data)
    ensures ReadPart(CRLF + body) == Some(([], body))
  {
    assert At(CRLF + body, CRLF, 0);
    assert (CRLF + body)[2..] == body;
  }

  /** Headers and bytes of every part. */
  function Form(ps: seq<Part>): seq<(seq<Header>, Data)> {
    if ps == [] then [] else [(ps[0].headers, ps[0].body)] + Form(ps[1..])
  }

  ghost predicate AllHeadersReadable(ps: seq<Part>) {
    forall i :: 0 <= i < |ps| ==> AllReadable(ps[i].headers)
  }

  lemma {:induction false} ReadPartsExact(ps: seq<Part>)
    ensures ReadParts(Contents(ps)) == Some(Form(ps)) <==> AllHeadersReadable(ps)
  {
    hide ReadPart, AllReadable, EncodeHeaders;
    if ps != [] {
      var p := ps[0];
      ReadPartExact(p.headers, p.body);
      ReadPartsExact(ps[1..]);
      assert Contents(ps)[1..] == Contents(ps[1..]);
      assert AllHeadersReadable(ps) <==> AllReadable(p.headers) && AllHeadersReadable(ps[1..]) by {
        assert forall k :: 0 <= k < |ps| - 1 ==> ps[1..][k] == ps[k + 1];
        assert forall k :: 1 <= k < |ps| ==> ps[k] == ps[1..][k - 1];
      }
      if ReadParts(Contents(ps)).Some? {
        var r := ReadParts(Contents(ps)).value;
        assert r[0] == ReadPart(Content(p)).value && r[1..] == ReadParts(Contents(ps[1..])).value;
        assert Form(ps)[0] == (p.headers, p.body) && Form(ps)[1..] == Form(ps[1..]);
      }
    }
  }

  /** Contents that are read as the form are the contents that were framed. */
  lemma {:induction false} ReadPartsSound(contents: seq<Data>, ps: seq<Part>)
    requires ReadParts(contents) == Some(Form(ps))
    ensures contents == Contents(ps)
  {
    hide ReadPart, EncodeHeaders;
    if contents == [] {
      assert ps == [];
    } else {
      var first, others := ReadPart(contents[0]).value, ReadParts(contents[1..]).value;
      ReadPartSound(contents[0]);
      assert Form(ps) == [first] + others;
      assert ps != [];
      assert others == ([first] + others)[1..] == Form(ps)[1..] == Form(ps[1..]);
      ReadPartsSound(contents[1..], ps[1..]);
      assert contents == [contents[0]] + contents[1..];
    }
  }

  /** Multipart framing is uniquely decodable: a reader that knows only the boundary recovers every part's
      headers and bytes, in order, from what `encode` returns if and only if there is a part, no line of a part
      starts like a delimiter line, and every header is one line whose name has no colon. */
  lemma FormRoundTrip(ps: seq<Part>, boundary: Data)
    requires Fresh(ps) && 13 !in boundary && InMemory(Flagged(ps), boundary).Bytes?
    ensures ReadForm(InMemory(Flagged(ps), boundary).data, boundary) == Some(Form(ps))
      <==> ps != [] && AllClean(ps, boundary) && AllHeadersReadable(ps)
  {
    hide InMemory, Split, ReadParts, AllClean, AllHeadersReadable, Contents, Form;
    SplitRecoversParts(ps, boundary);
    ReadPartsExact(ps);
    var r := Split(InMemory(Flagged(ps), boundary).data, boundary);
    if r.Some? && ReadParts(r.value.0) == Some(Form(ps)) {
      ReadPartsSound(r.value.0, ps);
    }
  }
}
