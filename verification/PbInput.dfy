/** Input streams of the decoder: a read-only buffer with a cursor, and length-limited substreams. */
module PbInput {
  import opened Bits
  import opened Varint

  /** Wire types with a defined payload. */
  const WT_VARINT := 0
  const WT_64BIT := 1
  const WT_STRING := 2
  const WT_32BIT := 5

  /** What `pb_decode_tag` reports. */
  datatype TagResult = TagFail | TagEof(rest: seq<byte>) | Tag(tag: nat, wire: nat, rest: seq<byte>)

  function DecTag(bs: seq<byte>): (r: TagResult)
    ensures r.Tag? ==> r.wire < 8 && |r.rest| < |bs|
  {
    match DecVarint32(bs)
    case Fail => if bs == [] then TagEof([]) else TagFail
    case Done(v, rest) => if v == 0 then TagEof(rest) else Tag(v / 8, v % 8, rest)
  }

  function TakeBytes(bs: seq<byte>, n: nat): Parse<seq<byte>> {
    if n <= |bs| then Done(bs[..n], bs[n..]) else Fail
  }

  /** A length prefix and that many bytes. */
  function TakeBlock(bs: seq<byte>): (r: Parse<seq<byte>>)
    ensures r.Done? ==> |r.value| + |r.rest| < |bs|
  {
    match DecVarint32(bs)
    case Fail => Fail
    case Done(size, rest) => TakeBytes(rest, size)
  }

  /** `pb_skip_varint` has no limit on the number of bytes. */
  function SkipVarint(bs: seq<byte>): Parse<()> {
    var n := VarintLen(bs);
    if n > 0 then Done((), bs[n..]) else Fail
  }

  /** The payload of a field of the given wire type, dropped. */
  function SkipPayload(wire: nat, bs: seq<byte>): (r: Parse<()>)
    ensures r.Done? ==> |r.rest| < |bs|
  {
    if wire == WT_VARINT then SkipVarint(bs)
    else if wire == WT_64BIT then (if |bs| >= 8 then Done((), bs[8..]) else Fail)
    else if wire == WT_STRING then
      match TakeBlock(bs) { case Fail => Fail case Done(_, rest) => Done((), rest) }
    else if wire == WT_32BIT then (if |bs| >= 4 then Done((), bs[4..]) else Fail)
    else Fail
  }

  lemma DecTagAppend(a: seq<byte>, b: seq<byte>)
    requires !DecTag(a).TagFail? && a != []
    ensures DecTag(a).Tag? ==> DecTag(a + b) == Tag(DecTag(a).tag, DecTag(a).wire, DecTag(a).rest + b)
    ensures DecTag(a).TagEof? ==> DecTag(a + b) == TagEof(DecTag(a).rest + b)
  {
    DecVarint32Append(a, b);
  }

  lemma TakeBlockAppend(a: seq<byte>, b: seq<byte>)
    requires TakeBlock(a).Done?
    ensures TakeBlock(a + b) == Done(TakeBlock(a).value, TakeBlock(a).rest + b)
  {
    DecVarint32Append(a, b);
    var Done(size, rest) := DecVarint32(a);
    assert (rest + b)[..size] == rest[..size] && (rest + b)[size..] == rest[size..] + b;
  }

  lemma SkipAppend(wire: nat, a: seq<byte>, b: seq<byte>)
    requires SkipPayload(wire, a).Done?
    ensures SkipPayload(wire, a + b) == Done((), SkipPayload(wire, a).rest + b)
  {
    if wire == WT_VARINT {
      VarintLenAppend(a, b);
      var n := VarintLen(a);
      assert (a + b)[n..] == a[n..] + b;
    } else if wire == WT_STRING {
      TakeBlockAppend(a, b);
    } else {
      var n := if wire == WT_64BIT then 8 else 4;
      assert (a + b)[n..] == a[n..] + b;
    }
  }

  /** `pb_istream_t` over a memory buffer: `pos` is the offset of `state` in the buffer. */
  class IStream {
    const buf: seq<byte>
    var pos: nat
    var bytesLeft: nat

    ghost predicate Valid()
      reads this
    {
      pos + bytesLeft <= |buf|
    }

    /** The bytes the stream may still deliver. */
    ghost function Rest(): seq<byte>
      requires Valid()
      reads this
    {
      buf[pos..pos + bytesLeft]
    }

    /** The `n` bytes at offset `from` of the buffer. */
    ghost function AfterBlock(from: nat, n: nat): seq<byte>
      requires from + n <= |buf|
    {
      buf[from..from + n]
    }

    constructor FromBuffer(buf: seq<byte>, size: nat)
      requires size <= |buf|
      ensures Valid() && this.buf == buf && pos == 0 && Rest() == buf[..size]
    {
      this.buf, pos, bytesLeft := buf, 0, size;
    }

    constructor Copy(s: IStream, size: nat)
      requires s.Valid() && size <= s.bytesLeft
      ensures Valid() && buf == s.buf && pos == s.pos && bytesLeft == size
      ensures Rest() == s.Rest()[..size]
    {
      buf, pos, bytesLeft := s.buf, s.pos, size;
    }

    /** `pb_readbyte` */
    method ReadByte() returns (ok: bool, b: byte)
      requires Valid()
      modifies this
      ensures Valid() && pos + bytesLeft == old(pos + bytesLeft)
      ensures ok == (old(Rest()) != [])
      ensures if ok then old(Rest()) == [b] + Rest() else Rest() == old(Rest()) == []
    {
      ok, b := bytesLeft > 0, 0;
      if ok {
        b := buf[pos];
        pos, bytesLeft := pos + 1, bytesLeft - 1;
      }
    }

    /** `pb_read`: all `count` bytes, or an error and no change. */
    method Read(count: nat) returns (ok: bool, bytes: seq<byte>)
      requires Valid()
      modifies this
      ensures Valid() && pos + bytesLeft == old(pos + bytesLeft)
      ensures (if ok then Done(bytes, Rest()) else Fail) == old(TakeBytes(Rest(), count))
      ensures !ok ==> Rest() == old(Rest())
    {
      ok, bytes := count <= bytesLeft, [];
      if ok {
        bytes := buf[pos..pos + count];
        assert bytes == Rest()[..count] && buf[pos + count..pos + bytesLeft] == Rest()[count..];
        pos, bytesLeft := pos + count, bytesLeft - count;
      }
    }

    /** `pb_decode_varint` */
    method DecodeVarint() returns (ok: bool, result: nat)
      requires Valid()
      modifies this
      ensures Valid() && pos + bytesLeft == old(pos + bytesLeft)
      ensures (if ok then Done(result, Rest()) else Fail) == old(DecVarint(Rest()))
      ensures !ok ==> bytesLeft == VarintLeft(old(Rest()))
    {
      hide Shl, BitOr, Groups, Low64, DecVarint;
      assert Low64(Groups([])) == 0 by { NoGroups(); }
      ghost var all := Rest();
      ghost var seen: seq<byte> := [];
      var bitpos := 0;
      result := 0;
      while true
        invariant Valid() && pos + bytesLeft == old(pos + bytesLeft)
        invariant all == seen + Rest() && bitpos == 7 * |seen| && |seen| <= 10
        invariant forall j :: 0 <= j < |seen| ==> seen[j] >= 128
        invariant result == Low64(Groups(seen))
        decreases 10 - |seen|
      {
        if bitpos >= 64 {
          TooLong(all, seen);
          return false, 0;
        }
        var more, b := ReadByte();
        if !more {
          TooLong(all, seen);
          return false, 0;
        }
        StepKeeps64(seen, b);
        assert seen + ([b] + Rest()) == seen + [b] + Rest();
        result := BitOr(result, Low64(Shl(b % 128, bitpos)));
        seen := seen + [b];
        bitpos := bitpos + 7;
        if b < 128 {
          VarintEnds(all, seen, Rest());
          return true, result;
        }
      }
    }

    /** `pb_decode_varint32` */
    method DecodeVarint32() returns (ok: bool, result: nat)
      requires Valid()
      modifies this
      ensures Valid() && pos + bytesLeft == old(pos + bytesLeft)
      ensures (if ok then Done(result, Rest()) else Fail) == old(DecVarint32(Rest()))
      ensures bytesLeft == Varint32Left(old(Rest())) <= old(bytesLeft)
    {
      hide Shl, BitOr, Low32;
      ghost var all := Rest();
      var more, b := ReadByte();
      if !more { return false, 0; }
      assert all[1..] == Rest();
      if b < 128 { return true, b; }
      var bitpos: nat := 7;
      result := b % 128;
      while true
        invariant Valid() && pos + bytesLeft == old(pos + bytesLeft) && bitpos < 256
        invariant bytesLeft <= old(bytesLeft)
        invariant DecVarint32(all) == Loop32(Rest(), bitpos, result)
        invariant Varint32Left(all) == Loop32Left(Rest(), bitpos, result)
        decreases bytesLeft
      {
        ghost var before := Rest();
        more, b := ReadByte();
        if !more { return false, 0; }
        assert before[0] == b && before[1..] == Rest();
        if bitpos >= 32 {
          var signExtension := if bitpos < 63 then 0xFF else 0x01;
          if b % 128 != 0 && (result < 0x8000_0000 || b != signExtension) { return false, 0; }
        } else {
          result := BitOr(result, Low32(Shl(b % 128, bitpos)));
        }
        bitpos := (bitpos + 7) % 256;
        if b < 128 { break; }
      }
      if bitpos == 35 && b / 16 % 8 != 0 { return false, 0; }
      return true, result;
    }

    /** `pb_decode_tag`; `eof` is also reported for a zero tag, which ends a message. */
    method DecodeTag() returns (ok: bool, eof: bool, tag: nat, wire: nat)
      requires Valid()
      modifies this
      ensures Valid() && pos + bytesLeft == old(pos + bytesLeft)
      ensures (if ok then Tag(tag, wire, Rest()) else if eof then TagEof(Rest()) else TagFail) == old(DecTag(Rest()))
    {
      ok, eof, tag, wire := false, bytesLeft == 0, 0, 0;
      var some, temp := DecodeVarint32();
      if some {
        if temp == 0 {
          eof := true;
        } else {
          ok, tag, wire := true, temp / 8, temp % 8;
        }
      }
    }

    /** `pb_skip_field` consumes exactly the payload of a field of that wire type. */
    method SkipField(wire: nat) returns (ok: bool)
      requires Valid()
      modifies this
      ensures Valid() && pos + bytesLeft == old(pos + bytesLeft)
      ensures (if ok then Done((), Rest()) else Fail) == old(SkipPayload(wire, Rest()))
    {
      var dropped;
      if wire == WT_VARINT {
        ok := SkipVarintBytes();
      } else if wire == WT_64BIT {
        ok, dropped := Read(8);
      } else if wire == WT_STRING {
        var size; ok, size := DecodeVarint32();
        if ok { ok, dropped := Read(size); }
      } else if wire == WT_32BIT {
        ok, dropped := Read(4);
      } else {
        ok := false;
      }
    }

    /** `pb_skip_varint` */
    method SkipVarintBytes() returns (ok: bool)
      requires Valid()
      modifies this
      ensures Valid() && pos + bytesLeft == old(pos + bytesLeft)
      ensures (if ok then Done((), Rest()) else Fail) == old(SkipVarint(Rest()))
    {
      ghost var all := Rest();
      ghost var seen: seq<byte> := [];
      while true
        invariant Valid() && pos + bytesLeft == old(pos + bytesLeft) && all == seen + Rest()
        invariant forall j :: 0 <= j < |seen| ==> seen[j] >= 128
        decreases bytesLeft
      {
        var more, b := ReadByte();
        if !more {
          LongerThan(all, seen);
          return false;
        }
        seen := seen + [b];
        if b < 128 {
          LengthIs(all, seen, Rest());
          return true;
        }
      }
    }

    /** `pb_make_string_substream`: the parent gives up the block's bytes; its cursor stays at the block. */
    method MakeSubstream() returns (ok: bool, sub: IStream)
      requires Valid()
      modifies this
      ensures Valid() && sub.Valid() && sub.buf == buf
      ensures ok == old(TakeBlock(Rest())).Done?
      ensures ok ==> fresh(sub) && sub.pos == pos && pos + sub.bytesLeft + bytesLeft == old(pos + bytesLeft)
      ensures ok ==> sub.Rest() == old(TakeBlock(Rest())).value
      ensures ok ==> AfterBlock(pos + sub.bytesLeft, bytesLeft) == old(TakeBlock(Rest())).rest
      ensures !ok ==> pos + bytesLeft == old(pos + bytesLeft)
    {
      hide DecVarint32;
      sub := this;
      var size; ok, size := DecodeVarint32();
      if ok && bytesLeft < size { ok := false; }
      if ok {
        sub := new IStream.Copy(this, size);
        bytesLeft := bytesLeft - size;
      }
    }

    /** `pb_close_string_substream`: however little of the block was read, the parent ends up behind it. */
    method CloseSubstream(sub: IStream, ghost end: nat)
      requires Valid() && sub.Valid() && sub != this && sub.buf == buf
      requires sub.pos + sub.bytesLeft == end && end + bytesLeft <= |buf|
      modifies this, sub
      ensures Valid() && pos == end && bytesLeft == old(bytesLeft) && sub.Valid() && sub.bytesLeft == 0
      ensures Rest() == AfterBlock(end, old(bytesLeft))
    {
      if sub.bytesLeft != 0 {
        ghost var left := sub.Rest();
        assert |left| == sub.bytesLeft && TakeBytes(left, |left|) == Done(left[..|left|], left[|left|..]);
        var ok, _ := sub.Read(sub.bytesLeft);
        assert |sub.Rest()| == sub.bytesLeft == 0;
      }
      pos := sub.pos;
    }
  }

  lemma NoGroups()
    ensures Low64(Groups([])) == 0
  {}

  lemma TooLong(all: seq<byte>, seen: seq<byte>)
    requires seen <= all && (|seen| == 10 || (seen == all && |seen| < 10))
    requires forall j :: 0 <= j < |seen| ==> seen[j] >= 128
    ensures DecVarint(all) == Fail && VarintLeft(all) == |all| - |seen|
  {
    LongerThan(all, seen);
  }

  lemma VarintEnds(all: seq<byte>, seen: seq<byte>, rest: seq<byte>)
    requires all == seen + rest && 0 < |seen| <= 10 && seen[|seen| - 1] < 128
    requires forall j :: 0 <= j < |seen| - 1 ==> seen[j] >= 128
    ensures DecVarint(all) == Done(Low64(Groups(seen)), rest)
  {
    hide Low64, Groups;
    LengthIs(all, seen, rest);
  }

  lemma LongerThan(all: seq<byte>, seen: seq<byte>)
    requires seen <= all && (|seen| >= 10 || seen == all) && forall j :: 0 <= j < |seen| ==> seen[j] >= 128
    ensures VarintLen(all) == 0 || VarintLen(all) > 10
    ensures seen == all ==> VarintLen(all) == 0
  {
    assert forall j :: 0 <= j < |seen| ==> all[j] == seen[j];
  }

  lemma LengthIs(all: seq<byte>, seen: seq<byte>, rest: seq<byte>)
    requires all == seen + rest && seen != [] && seen[|seen| - 1] < 128
    requires forall j :: 0 <= j < |seen| - 1 ==> seen[j] >= 128
    ensures VarintLen(all) == |seen| && all[..|seen|] == seen && all[|seen|..] == rest
  {
    assert forall j :: 0 <= j < |seen| ==> all[j] == seen[j];
    assert all[|seen| - 1] < 128;
  }

  // ---- Conservation over whole programs of reads -----------------------------------------------

  /** What a decoder can do with a stream. A block is opened, something is done inside, and it is closed. */
  datatype Op =
    | GetByte | GetBytes(count: nat) | GetVarint | GetVarint32 | GetTag | SkipOver(wire: nat)
    | InsideBlock(ops: seq<Op>)

  /** Any program of reads and nested blocks, its failures ignored, keeps offset plus bytes left. */
  method Run(s: IStream, ops: seq<Op>)
    requires s.Valid()
    modifies s
    ensures s.Valid() && s.pos + s.bytesLeft == old(s.pos + s.bytesLeft)
    decreases ops, 0
  {
    hide DecVarint, DecVarint32, DecTag, SkipPayload, TakeBytes, TakeBlock;
    for i := 0 to |ops|
      invariant s.Valid() && s.pos + s.bytesLeft == old(s.pos + s.bytesLeft)
    {
      match ops[i] {
        case GetByte => var _, _ := s.ReadByte();
        case GetBytes(count) => var _, _ := s.Read(count);
        case GetVarint => var _, _ := s.DecodeVarint();
        case GetVarint32 => var _, _ := s.DecodeVarint32();
        case GetTag => var _, _, _, _ := s.DecodeTag();
        case SkipOver(wire) => var _ := s.SkipField(wire);
        case InsideBlock(inner) => var _ := RunBlock(s, inner);
      }
    }
  }

  /** One block: whatever is done inside, with blocks nested to any depth, the parent ends just past the length prefix
      and the block; and offset plus bytes left is kept even if the block cannot be opened. */
  method RunBlock(s: IStream, ops: seq<Op>) returns (ok: bool)
    requires s.Valid()
    modifies s
    ensures s.Valid() && s.pos + s.bytesLeft == old(s.pos + s.bytesLeft)
    ensures ok == old(TakeBlock(s.Rest())).Done?
    ensures ok ==> s.Rest() == old(TakeBlock(s.Rest())).rest
    decreases ops, 1
  {
    hide TakeBlock;
    var sub; ok, sub := s.MakeSubstream();
    if !ok { return; }
    ghost var end := sub.pos + sub.bytesLeft;
    Run(sub, ops);
    s.CloseSubstream(sub, end);
  }
}
