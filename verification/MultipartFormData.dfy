/** Alamofire's `MultipartFormData` as an object: body parts read from streams that deliver their bytes in
    pieces of any size, encoded into memory or written to a stream that accepts pieces of any size. */
module MultipartFormData {
  import opened Bits
  import opened MultipartFraming

  const STREAM_BUFFER_SIZE := 1024

  /** A source of bytes. `content` is what it delivers before it ends, or fails when `fails`. */
  class InputStream {
    const content: Data
    const fails: bool
    var pos: nat
    var streamError: bool

    ghost predicate Valid()
      reads this
    {
      pos <= |content| && (streamError ==> fails && pos == |content|)
    }

    ghost function Remaining(): Data
      requires Valid()
      reads this
    {
      content[pos..]
    }

    constructor (content: Data, fails: bool)
      ensures Valid() && Remaining() == content && this.content == content && this.fails == fails
    {
      this.content, this.fails, pos, streamError := content, fails, 0, false;
    }

    /** Certain while something is left; at the end only a read can tell. */
    method HasBytesAvailable() returns (available: bool)
      requires Valid()
      ensures pos < |content| || fails ==> available
    {
      available := *;
      if pos < |content| || fails { available := true; }
    }

    /** Fills some of the buffer: any positive number of bytes that fits, 0 at the end, -1 on failure. */
    method Read(buffer: array<byte>) returns (bytesRead: int)
      requires Valid() && buffer.Length > 0
      modifies this, buffer
      ensures Valid()
      ensures (if old(pos) < |content|
               then && 1 <= bytesRead <= buffer.Length && pos == old(pos) + bytesRead && !streamError
                    && buffer[..bytesRead] == content[old(pos)..pos]
               else pos == old(pos) && streamError == fails && bytesRead == if fails then -1 else 0)
    {
      if pos == |content| {
        if fails {
          streamError := true;
          return -1;
        }
        return 0;
      }
      var n: nat :| 1 <= n <= buffer.Length && pos + n <= |content|;
      for i := 0 to n
        modifies buffer
        invariant forall j :: 0 <= j < i ==> buffer[j] == content[pos + j]
      {
        buffer[i] := content[pos + i];
      }
      pos := pos + n;
      bytesRead := n;
    }
  }

  /** What arrives at an output that holds `before` and takes no more than `capacity` bytes, and how the writing
      ends: beyond its capacity a `broken` output reports an error, and a full one silently takes nothing. */
  ghost function Deliver(before: Data, e: Emission, capacity: Option<nat>, broken: bool): Emission {
    var all := before + e.data;
    if capacity.None? || |all| <= capacity.value then Emission(all, e.error)
    else Emission(all[..capacity.value], if broken then Some(OutputWriteFailed) else e.error)
  }

  /** Writing in two steps is writing once. */
  lemma DeliverThen(before: Data, e: Emission, e': Emission, capacity: Option<nat>, broken: bool)
    requires capacity.Some? ==> |before| <= capacity.value
    ensures var first := Deliver(before, e, capacity, broken);
      Deliver(before, Then(e, e'), capacity, broken)
      == if first.error.Some? then first else Deliver(first.data, e', capacity, broken)
  {
    assert before + (e.data + e'.data) == before + e.data + e'.data;
    if e.error.None? && capacity.Some? && |before + e.data| > capacity.value {
      var all := before + e.data;
      assert (all + e'.data)[..capacity.value] == all[..capacity.value];
      assert (all[..capacity.value] + e'.data)[..capacity.value] == all[..capacity.value];
      assert |all[..capacity.value] + e'.data| == capacity.value ==>
        all[..capacity.value] + e'.data == all[..capacity.value];
    }
  }

  class OutputStream {
    const capacity: Option<nat>
    const broken: bool
    var written: Data
    var streamError: bool

    ghost predicate Valid()
      reads this
    {
      (capacity.Some? ==> |written| <= capacity.value) && (streamError ==> broken)
    }

    constructor (capacity: Option<nat>, broken: bool)
      ensures Valid() && written == [] && !streamError && this.capacity == capacity && this.broken == broken
    {
      this.capacity, this.broken, written, streamError := capacity, broken, [], false;
    }

    predicate HasSpaceAvailable()
      reads this
    {
      capacity.None? || |written| < capacity.value || broken
    }

    /** Accepts any positive number of the bytes that still fit. */
    method Write(buffer: Data, maxLength: nat) returns (bytesWritten: int)
      requires Valid() && HasSpaceAvailable() && 0 < maxLength <= |buffer| && !streamError
      modifies this
      ensures Valid()
      ensures (if capacity.None? || |old(written)| < capacity.value
               then 1 <= bytesWritten <= maxLength && written == old(written) + buffer[..bytesWritten] && !streamError
               else bytesWritten == -1 && written == old(written) && streamError)
    {
      if capacity.Some? && |written| == capacity.value {
        streamError := true;
        return -1;
      }
      var n: nat :| 1 <= n <= maxLength && (capacity.Some? ==> |written| + n <= capacity.value);
      written := written + buffer[..n];
      bytesWritten := n;
    }
  }

  /** The buffered write loop. */
  method WriteBuffer(data: Data, out: OutputStream) returns (error: Option<Error>)
    requires out.Valid() && !out.streamError
    modifies out
    ensures out.Valid() && (if error.None? then !out.streamError else error == Some(OutputWriteFailed))
    ensures Emission(out.written, error) == Deliver(old(out.written), Emission(data, None), out.capacity, out.broken)
  {
    var buffer, bytesToWrite := data, |data|;
    while bytesToWrite > 0 && out.HasSpaceAvailable()
      invariant out.Valid() && !out.streamError
      invariant 0 <= bytesToWrite <= |buffer| && (bytesToWrite > 0 ==> bytesToWrite == |buffer|)
      invariant out.written + buffer[..bytesToWrite] == old(out.written) + data
      decreases bytesToWrite
    {
      var bytesWritten := out.Write(buffer, bytesToWrite);
      if out.streamError {
        assert (old(out.written) + data)[..out.capacity.value] == out.written;
        return Some(OutputWriteFailed);
      }
      bytesToWrite := bytesToWrite - bytesWritten;
      assert buffer == buffer[..bytesWritten] + buffer[bytesWritten..];
      if bytesToWrite > 0 { buffer := buffer[bytesWritten..]; }
    }
    error := None;
    if bytesToWrite > 0 {
      assert (old(out.written) + data)[..out.capacity.value] == out.written;
    }
  }

  class BodyPart {
    const headers: seq<Header>
    const bodyStream: InputStream
    const bodyContentLength: nat
    var hasInitialBoundary: bool
    var hasFinalBoundary: bool

    ghost function Value(): Part
      requires bodyStream.Valid()
      reads this, bodyStream
    {
      Part(headers, bodyStream.Remaining(), bodyStream.fails, bodyContentLength, hasInitialBoundary, hasFinalBoundary)
    }

    constructor (headers: seq<Header>, bodyStream: InputStream, bodyContentLength: nat)
      requires bodyStream.Valid()
      ensures this.bodyStream == bodyStream
      ensures Value() == Part(headers, bodyStream.Remaining(), bodyStream.fails, bodyContentLength, false, false)
    {
      this.headers, this.bodyStream, this.bodyContentLength := headers, bodyStream, bodyContentLength;
      hasInitialBoundary, hasFinalBoundary := false, false;
    }

    method EncodeBodyStream() returns (r: Encoded)
      requires bodyStream.Valid()
      modifies bodyStream
      ensures bodyStream.Valid() && Value() == old(Value()).(body := [])
      ensures r == EncodeBody(old(Value()))
    {
      var encoded: Data := [];
      ghost var start := bodyStream.pos;
      while true
        invariant bodyStream.Valid() && start <= bodyStream.pos
        invariant encoded == bodyStream.content[start..bodyStream.pos]
        decreases |bodyStream.content| - bodyStream.pos
      {
        var available := bodyStream.HasBytesAvailable();
        if !available { break; }
        var buffer := new byte[STREAM_BUFFER_SIZE](_ => 0);
        var bytesRead := bodyStream.Read(buffer);
        if bodyStream.streamError { return Thrown(InputReadFailed); }
        if bytesRead <= 0 { break; }
        encoded := encoded + buffer[..bytesRead];
      }
      if |encoded| != bodyContentLength { return Thrown(UnexpectedLength(bodyContentLength, |encoded|)); }
      return Bytes(encoded);
    }

    method WriteBodyStream(out: OutputStream) returns (error: Option<Error>)
      requires bodyStream.Valid() && out.Valid() && !out.streamError
      modifies bodyStream, out
      ensures bodyStream.Valid() && out.Valid() && (error.None? ==> !out.streamError)
      ensures error != Some(OutputWriteFailed) ==> Value() == old(Value()).(body := [])
      ensures Emission(out.written, error) ==
        Deliver(old(out.written), EmitBody(old(Value())), out.capacity, out.broken)
    {
      ghost var start, was := bodyStream.pos, out.written;
      ghost var body := bodyStream.Remaining();
      assert bodyStream.content[start..start] == [];
      while true
        invariant bodyStream.Valid() && start <= bodyStream.pos && out.Valid() && !out.streamError
        invariant Emission(out.written, None) ==
          Deliver(was, Emission(bodyStream.content[start..bodyStream.pos], None), out.capacity, out.broken)
        decreases |bodyStream.content| - bodyStream.pos
      {
        ghost var from := bodyStream.pos;
        var available := bodyStream.HasBytesAvailable();
        if !available { break; }
        var buffer := new byte[STREAM_BUFFER_SIZE](_ => 0);
        var bytesRead := bodyStream.Read(buffer);
        if bodyStream.streamError {
          assert bodyStream.content[start..from] == body;
          return Some(InputReadFailed);
        }
        if bytesRead <= 0 { break; }
        ghost var content, to := bodyStream.content, bodyStream.pos;
        error := WriteBuffer(buffer[..bytesRead], out);
        DeliverThen(was, Emission(content[start..from], None), Emission(content[from..to], None),
                    out.capacity, out.broken);
        assert content[start..from] + content[from..to] == content[start..to];
        if error.Some? {
          DeliverThen(was, Emission(content[start..to], None),
                      Emission(content[to..], EmitBody(old(Value())).error), out.capacity, out.broken);
          assert content[start..to] + content[to..] == body;
          return;
        }
      }
      assert bodyStream.content[start..bodyStream.pos] == body;
      error := None;
    }

    method Encode(boundary: Data) returns (r: Encoded)
      requires bodyStream.Valid()
      modifies bodyStream
      ensures bodyStream.Valid() && Value() == old(Value()).(body := [])
      ensures r == EncodedPart(old(Value()), boundary)
    {
      var encoded := BoundaryData(if hasInitialBoundary then Initial else Encapsulated, boundary);
      encoded := encoded + EncodeHeaders(headers);
      var body := EncodeBodyStream();
      if body.Thrown? { return body; }
      encoded := encoded + body.data;
      if hasFinalBoundary { encoded := encoded + BoundaryData(Final, boundary); }
      return Bytes(encoded);
    }

    method Write(boundary: Data, out: OutputStream) returns (error: Option<Error>)
      requires bodyStream.Valid() && out.Valid() && !out.streamError
      modifies bodyStream, out
      ensures bodyStream.Valid() && out.Valid() && (error.None? ==> !out.streamError)
      ensures error != Some(OutputWriteFailed) ==> Value() == old(Value()).(body := [])
      ensures Emission(out.written, error) ==
        Deliver(old(out.written), EmitPart(old(Value()), boundary), out.capacity, out.broken)
    {
      hide Deliver, Opening, EncodeHeaders, BoundaryData, Then, EmitPart, EncodePart;
      ghost var v, was, cap, broken := Value(), out.written, out.capacity, out.broken;
      var delimiter := BoundaryData(if hasInitialBoundary then Initial else Encapsulated, boundary);
      ghost var e1, e2 := Emission(delimiter, None), Emission(EncodeHeaders(headers), None);
      ghost var e3, e4 := EmitBody(v), Emission(Closing(v, boundary), None);
      EmitPartSteps(v, boundary);
      DeliverThen(was, e1, e2, cap, broken);
      DeliverThen(was, Then(e1, e2), e3, cap, broken);
      DeliverThen(was, Then(Then(e1, e2), e3), e4, cap, broken);
      error := WriteBuffer(delimiter, out);
      if error.Some? { return; }
      error := WriteBuffer(EncodeHeaders(headers), out);
      if error.Some? { return; }
      error := WriteBodyStream(out);
      if error.Some? { return; }
      if hasFinalBoundary {
        assert Closing(v, boundary) == BoundaryData(Final, boundary);
        error := WriteBuffer(BoundaryData(Final, boundary), out);
      } else {
        assert Closing(v, boundary) == [];
        NothingDelivered(out.written, cap, broken);
      }
    }
  }

  lemma EmitPartSteps(p: Part, boundary: Data)
    ensures var delimiter := BoundaryData(if p.initial then Initial else Encapsulated, boundary);
      EmitPart(p, boundary)
      == Then(Then(Then(Emission(delimiter, None), Emission(EncodeHeaders(p.headers), None)), EmitBody(p)),
              Emission(Closing(p, boundary), None))
  {
    hide BoundaryData, EncodeHeaders;
  }

  lemma NothingDelivered(before: Data, capacity: Option<nat>, broken: bool)
    requires capacity.Some? ==> |before| <= capacity.value
    ensures Deliver(before, Emission([], None), capacity, broken) == Emission(before, None)
  {
    assert before + [] == before;
  }

  function EmitBody(p: Part): Emission {
    Emission(p.body, if p.fails then Some(InputReadFailed) else None)
  }

  ghost predicate Distinct(parts: seq<BodyPart>) {
    forall i, j :: 0 <= i < j < |parts| ==> parts[i] != parts[j] && parts[i].bodyStream != parts[j].bodyStream
  }

  ghost function Streams(parts: seq<BodyPart>): set<InputStream> {
    set p | p in parts :: p.bodyStream
  }

  ghost predicate StreamsValid(parts: seq<BodyPart>)
    reads Streams(parts)
  {
    forall i :: 0 <= i < |parts| ==> parts[i].bodyStream.Valid()
  }

  ghost function Values(parts: seq<BodyPart>): (vs: seq<Part>)
    requires StreamsValid(parts)
    reads parts, Streams(parts)
    ensures |vs| == |parts| && forall i :: 0 <= i < |parts| ==> vs[i] == parts[i].Value()
  {
    if parts == [] then []
    else
      assert StreamsValid(parts[..|parts| - 1]) by {
        assert forall i :: 0 <= i < |parts| - 1 ==> parts[..|parts| - 1][i] == parts[i];
      }
      Values(parts[..|parts| - 1]) + [parts[|parts| - 1].Value()]
  }

  lemma OneMorePart(parts: seq<BodyPart>, part: BodyPart)
    requires Distinct(parts) && StreamsValid(parts) && part.bodyStream.Valid()
    requires part !in parts && part.bodyStream !in Streams(parts)
    ensures Distinct(parts + [part]) && StreamsValid(parts + [part])
    ensures Values(parts + [part]) == Values(parts) + [part.Value()]
  {
    assert forall p :: p in parts ==> p.bodyStream in Streams(parts);
    assert (parts + [part])[..|parts|] == parts;
  }

  function Declared(ps: seq<Part>): nat {
    if ps == [] then 0 else Declared(ps[..|ps| - 1]) + ps[|ps| - 1].declared
  }

  class MultipartFormData {
    const boundary: Data
    var bodyParts: seq<BodyPart>
    var bodyPartError: Option<Error>

    ghost predicate Valid()
      reads this, bodyParts, Streams(bodyParts)
    {
      Distinct(bodyParts) && StreamsValid(bodyParts)
    }

    ghost function Parts(): seq<Part>
      requires Valid()
      reads this, bodyParts, Streams(bodyParts)
    {
      Values(bodyParts)
    }

    constructor (boundary: Data)
      ensures Valid() && Parts() == [] && bodyPartError == None && this.boundary == boundary
    {
      this.boundary, bodyParts, bodyPartError := boundary, [], None;
    }

    /** `append` of a stream that no earlier part reads from. */
    method Append(stream: InputStream, length: nat, headers: seq<Header>)
      requires Valid() && stream.Valid() && stream !in Streams(bodyParts)
      modifies this
      ensures Valid() && bodyPartError == old(bodyPartError)
      ensures Parts() == old(Parts()) + [Part(headers, stream.Remaining(), stream.fails, length, false, false)]
    {
      hide Values, Distinct;
      var part := new BodyPart(headers, stream, length);
      OneMorePart(bodyParts, part);
      bodyParts := bodyParts + [part];
    }

    method SetBodyPartError(code: int)
      modifies this`bodyPartError
      ensures bodyPartError == if old(bodyPartError).Some? then old(bodyPartError) else Some(BodyPartError(code))
    {
      if bodyPartError.None? { bodyPartError := Some(BodyPartError(code)); }
    }

    method ContentLength() returns (total: nat)
      requires Valid()
      ensures total == Declared(Parts())
    {
      total := 0;
      ghost var ps := Parts();
      for i := 0 to |bodyParts|
        invariant total == Declared(ps[..i])
      {
        assert ps[..i + 1][..i] == ps[..i];
        total := total + bodyParts[i].bodyContentLength;
      }
      assert ps[..|ps|] == ps;
    }

    /** The first part opens the body and the last one closes it. */
    method SetFlags()
      requires Valid()
      modifies bodyParts
      ensures Valid() && Parts() == Flagged(old(Parts()))
    {
      if bodyParts != [] {
        bodyParts[0].hasInitialBoundary := true;
        bodyParts[|bodyParts| - 1].hasFinalBoundary := true;
      }
    }

    method EncodeNth(i: nat) returns (r: Encoded)
      requires Valid() && i < |bodyParts|
      modifies bodyParts[i].bodyStream
      ensures Valid() && Parts() == old(Parts())[i := old(Parts())[i].(body := [])]
      ensures r == EncodedPart(old(Parts())[i], boundary)
    {
      hide Values, EncodePart, EncodeBody;
      r := bodyParts[i].Encode(boundary);
    }

    /** `encode` */
    method Encode() returns (r: Encoded)
      requires Valid()
      modifies bodyParts, Streams(bodyParts)
      ensures Valid()
      ensures bodyPartError.Some? ==> r == Thrown(bodyPartError.value) && Parts() == old(Parts())
      ensures bodyPartError.None? ==> r == InMemory(Flagged(old(Parts())), boundary)
      ensures bodyPartError.None? ==> Parts() == Spent(Flagged(old(Parts())), true)
    {
      hide Values, Flagged, EncodePart, Spent, InMemory, EncodedPart, Distinct, StreamsValid;
      if bodyPartError.Some? { return Thrown(bodyPartError.value); }
      var encoded: Data := [];
      SetFlags();
      ghost var ps := Parts();
      assert ps[0..] == ps;
      for i := 0 to |bodyParts|
        invariant Valid() && |Parts()| == |ps| && Parts()[i..] == ps[i..]
        invariant Spent(ps, true) == Parts()[..i] + Spent(ps[i..], true)
        invariant InMemory(ps, boundary) == Prepend(encoded, InMemory(ps[i..], boundary))
      {
        PassStep(ps, Parts(), i, true);
        InMemoryStep(ps, i, encoded, boundary);
        var encodedData := EncodeNth(i);
        if encodedData.Thrown? { return encodedData; }
        encoded := encoded + encodedData.data;
      }
      PassEnd(ps, Parts(), boundary);
      return Bytes(encoded);
    }

    method WriteNth(i: nat, out: OutputStream) returns (error: Option<Error>)
      requires Valid() && i < |bodyParts| && out.Valid() && !out.streamError
      modifies bodyParts[i].bodyStream, out
      ensures Valid() && out.Valid() && (error.None? ==> !out.streamError)
      ensures error != Some(OutputWriteFailed) ==> Parts() == old(Parts())[i := old(Parts())[i].(body := [])]
      ensures Emission(out.written, error) ==
        Deliver(old(out.written), EmitPart(old(Parts())[i], boundary), out.capacity, out.broken)
    {
      hide Values, EmitPart, Deliver;
      error := bodyParts[i].Write(boundary, out);
    }

    method WriteParts(out: OutputStream) returns (error: Option<Error>)
      requires Valid() && out.Valid() && !out.streamError
      modifies Streams(bodyParts), out
      ensures Valid() && out.Valid()
      ensures Emission(out.written, error) ==
        Deliver(old(out.written), Streamed(old(Parts()), boundary), out.capacity, out.broken)
      ensures error != Some(OutputWriteFailed) ==> Parts() == Spent(old(Parts()), false)
    {
      hide Values, EmitPart, Spent, Streamed, Deliver, Distinct, StreamsValid, Stops;
      ghost var ps, was, cap, broken := Parts(), out.written, out.capacity, out.broken;
      assert ps[0..] == ps;
      for i := 0 to |bodyParts|
        invariant Valid() && |Parts()| == |ps| && Parts()[i..] == ps[i..] && out.Valid() && !out.streamError
        invariant Spent(ps, false) == Parts()[..i] + Spent(ps[i..], false)
        invariant Deliver(was, Streamed(ps, boundary), cap, broken) ==
          Deliver(out.written, Streamed(ps[i..], boundary), cap, broken)
      {
        PassStep(ps, Parts(), i, false);
        StreamedStep(ps, i, out.written, boundary, cap, broken);
        error := WriteNth(i, out);
        if error.Some? { return; }
      }
      PassEnd(ps, Parts(), boundary);
      NothingDelivered(out.written, cap, broken);
      error := None;
    }

    /** `writeEncodedData` to an output that has just been opened. */
    method WriteEncodedData(out: OutputStream) returns (error: Option<Error>)
      requires Valid() && out.Valid() && !out.streamError && out.written == []
      modifies bodyParts, Streams(bodyParts), out
      ensures Valid() && out.Valid()
      ensures bodyPartError.Some? ==> error == bodyPartError && Parts() == old(Parts()) && out.written == []
      ensures bodyPartError.None? ==>
        Emission(out.written, error) == Deliver([], Streamed(Flagged(old(Parts())), boundary), out.capacity, out.broken)
      ensures bodyPartError.None? && error != Some(OutputWriteFailed) ==> Parts() == Spent(Flagged(old(Parts())), false)
    {
      hide Values, Flagged, Spent, Streamed, Deliver, Distinct, StreamsValid;
      if bodyPartError.Some? { return bodyPartError; }
      SetFlags();
      error := WriteParts(out);
    }
  }

  function Prepend(data: Data, r: Encoded): Encoded {
    if r.Thrown? then r else Bytes(data + r.data)
  }

  function EncodedPart(p: Part, boundary: Data): Encoded {
    if EncodeBody(p).Thrown? then EncodeBody(p) else Bytes(EncodePart(p, boundary))
  }

  predicate Stops(p: Part, strict: bool) {
    p.fails || (strict && |p.body| != p.declared)
  }

  /** One more part has been read: `cur` are the parts as they stand before. */
  lemma PassStep(ps: seq<Part>, cur: seq<Part>, i: nat, strict: bool)
    requires i < |ps| == |cur| && cur[i..] == ps[i..] && Spent(ps, strict) == cur[..i] + Spent(ps[i..], strict)
    ensures cur[i] == ps[i]
    ensures var after := cur[i := cur[i].(body := [])];
      && after[i + 1..] == ps[i + 1..]
      && (if Stops(ps[i], strict) then Spent(ps, strict) == after
          else Spent(ps, strict) == after[..i + 1] + Spent(ps[i + 1..], strict))
  {
    hide Spent;
    var p := ps[i];
    assert cur[i..][0] == ps[i..][0] == p;
    assert cur[i + 1..] == cur[i..][1..] == ps[i..][1..] == ps[i + 1..];
    SpentFrom(ps, i, strict);
    var after, done := cur[i := cur[i].(body := [])], cur[..i] + [p.(body := [])];
    var next := if Stops(p, strict) then ps[i + 1..] else Spent(ps[i + 1..], strict);
    assert cur[..i] + ([p.(body := [])] + next) == done + next;
    assert after[..i + 1] == done;
    assert after[i + 1..] == cur[i + 1..];
    assert after == after[..i + 1] + after[i + 1..];
  }

  lemma SpentFrom(ps: seq<Part>, i: nat, strict: bool)
    requires i < |ps|
    ensures Spent(ps[i..], strict)
         == [ps[i].(body := [])] + (if Stops(ps[i], strict) then ps[i + 1..] else Spent(ps[i + 1..], strict))
  {
    assert ps[i..][0] == ps[i] && ps[i..][1..] == ps[i + 1..];
  }

  lemma InMemoryStep(ps: seq<Part>, i: nat, encoded: Data, boundary: Data)
    requires i < |ps| && InMemory(ps, boundary) == Prepend(encoded, InMemory(ps[i..], boundary))
    ensures var r := EncodedPart(ps[i], boundary);
      && (r.Thrown? <==> Stops(ps[i], true))
      && (if r.Thrown? then InMemory(ps, boundary) == r
          else InMemory(ps, boundary) == Prepend(encoded + r.data, InMemory(ps[i + 1..], boundary)))
  {
    hide EncodePart;
    assert ps[i..][0] == ps[i] && ps[i..][1..] == ps[i + 1..];
    var r, rest := EncodedPart(ps[i], boundary), InMemory(ps[i + 1..], boundary);
    if r.Bytes? && rest.Bytes? {
      assert encoded + (r.data + rest.data) == encoded + r.data + rest.data;
    }
  }

  lemma StreamedStep(ps: seq<Part>, i: nat, written: Data, boundary: Data, cap: Option<nat>, broken: bool)
    requires i < |ps| && (cap.Some? ==> |written| <= cap.value)
    ensures var first := Deliver(written, EmitPart(ps[i], boundary), cap, broken);
      && Deliver(written, Streamed(ps[i..], boundary), cap, broken)
         == (if first.error.Some? then first else Deliver(first.data, Streamed(ps[i + 1..], boundary), cap, broken))
      && (first.error.None? ==> !Stops(ps[i], false))
      && (first.error.Some? && first.error != Some(OutputWriteFailed) ==> Stops(ps[i], false))
  {
    hide EncodePart;
    assert ps[i..][0] == ps[i] && ps[i..][1..] == ps[i + 1..];
    DeliverThen(written, EmitPart(ps[i], boundary), Streamed(ps[i + 1..], boundary), cap, broken);
  }

  lemma PassEnd(ps: seq<Part>, cur: seq<Part>, boundary: Data)
    requires |cur| == |ps|
    ensures Spent(ps[|ps|..], true) == Spent(ps[|ps|..], false) == [] && cur[..|ps|] == cur
    ensures InMemory(ps[|ps|..], boundary) == Bytes([]) && Streamed(ps[|ps|..], boundary) == Emission([], None)
  {}

  /** When `encode` would succeed, the streamed form leaves the same bytes in the output, without an error, exactly
      when the output has room for them. Otherwise the output holds a proper prefix, and only a broken output
      makes the call fail: a full one is not noticed. */
  lemma WrittenIsEncoded(ps: seq<Part>, boundary: Data, capacity: Option<nat>, broken: bool)
    requires InMemory(ps, boundary).Bytes?
    ensures var data, r := InMemory(ps, boundary).data, Deliver([], Streamed(ps, boundary), capacity, broken);
      && (r == Emission(data, None) <==> capacity.None? || |data| <= capacity.value)
      && (r.error == if capacity.Some? && |data| > capacity.value && broken then Some(OutputWriteFailed) else None)
      && (capacity.Some? && |data| > capacity.value ==> r.data == data[..capacity.value])
  {
    hide InMemory, Streamed;
    StreamedEqualsInMemory(ps, boundary);
    assert [] + Streamed(ps, boundary).data == Streamed(ps, boundary).data;
  }

  /** The form with the single part "x" and the boundary "b". */
  const LetterForm: seq<Part> := [Part([], [120], false, 1, true, true)]

  /** An output with room for three bytes: `encode` returns all seventeen, the streamed form leaves "--b" behind, and no
      error is reported. */
  lemma TruncationIsSilent()
    ensures LetterForm == Flagged([Part([], [120], false, 1, false, false)])
    ensures InMemory(LetterForm, [98])
         == Bytes([45, 45, 98, 13, 10, 13, 10, 120, 13, 10, 45, 45, 98, 45, 45, 13, 10])
    ensures Deliver([], Streamed(LetterForm, [98]), Some(3), false) == Emission([45, 45, 98], None)
  {
    var p := LetterForm[0];
    assert Opening(p, [98]) == [45, 45, 98, 13, 10, 13, 10];
    assert Closing(p, [98]) == [13, 10, 45, 45, 98, 45, 45, 13, 10];
    var data := EncodePart(p, [98]);
    assert data == [45, 45, 98, 13, 10, 13, 10, 120, 13, 10, 45, 45, 98, 45, 45, 13, 10];
    assert LetterForm[1..] == [] && data + [] == data;
    WrittenIsEncoded(LetterForm, [98], Some(3), false);
    assert data[..3] == [45, 45, 98];
  }

  /** A stream that delivers one byte although two were declared: `encode` fails, the streamed form does not notice. */
  lemma ShortStreamIsNoticedInMemory()
    ensures var ps := [Part([], [120], false, 2, true, true)];
      && InMemory(ps, [98]) == Thrown(UnexpectedLength(2, 1))
      && Streamed(ps, [98]).error == None
  {
    var ps := [Part([], [120], false, 2, true, true)];
    assert ps[1..] == [];
  }

  /** What framing adds to the bytes of the parts. */
  function Overhead(ps: seq<Part>, boundary: Data): nat {
    if ps == [] then 0 else |Opening(ps[0], boundary)| + |Closing(ps[0], boundary)| + Overhead(ps[1..], boundary)
  }

  lemma {:induction false} DeclaredFirst(ps: seq<Part>)
    requires ps != []
    ensures Declared(ps) == ps[0].declared + Declared(ps[1..])
  {
    var n := |ps| - 1;
    if n == 0 {
      assert ps[..0] == [] && ps[1..] == [];
    } else {
      DeclaredFirst(ps[..n]);
      assert ps[..n][1..] == ps[1..][..n - 1];
    }
  }

  /** The content length is the length of what `encode` returns, without the delimiters and headers. */
  lemma {:induction false} EncodedLength(ps: seq<Part>, boundary: Data)
    requires InMemory(ps, boundary).Bytes?
    ensures |InMemory(ps, boundary).data| == Declared(ps) + Overhead(ps, boundary)
  {
    hide Opening, Closing;
    if ps != [] {
      DeclaredFirst(ps);
      EncodedLength(ps[1..], boundary);
    }
  }
}
