/** The encoder of pb_encode.c: output streams over a buffer or for sizing only, and the two-pass
    "size, then write" submessage encoder. */
module Encoder {
  import opened Bits
  import opened Varint
  import opened PbInput
  import opened Descriptor
  import opened FieldIterator
  import opened Encoding

  datatype Status = Ok | StreamFull | BytesSizeExceeded | ArrayMaxSizeExceeded | SizeOverflow | SubmsgSizeChanged

  /** The loop of `pb_encode_varint`: every group gets a continuation bit, the last one loses it again. */
  method VarintBytes(value: nat) returns (bytes: seq<byte>)
    requires value < TWO64
    ensures bytes == EncVarint(value)
  {
    if value <= 0x7F { return [value]; }
    var buffer: array<byte> := new byte[10];
    var v, i: nat := value, 0;
    AtMostTenBytes(value);
    ghost var all := EncVarint(value);
    while v != 0
      invariant i <= |all| && (v != 0 ==> |all| == i + |EncVarint(v)| && all[i..] == EncVarint(v))
      invariant v == 0 ==> i == |all| && i > 0 && buffer[i - 1] >= 128 && buffer[i - 1] - 128 == all[i - 1]
      invariant forall k :: 0 <= k < i && (v != 0 || k < i - 1) ==> buffer[k] == all[k]
      decreases v
    {
      assert all[i] == EncVarint(v)[0];
      assert v >= 128 ==> all[i + 1..] == EncVarint(v)[1..];
      buffer[i] := v % 128 + 128;
      v := v / 128;
      i := i + 1;
    }
    buffer[i - 1] := buffer[i - 1] - 128;
    assert buffer[..i] == all;
    return buffer[..i];
  }

  /** `pb_ostream_t`. A sizing stream (no callback) only counts. `written` is what has gone through the
      stream, whether or not it was stored; `below` is the part of the buffer before the stream. */
  class OStream {
    const sizing: bool
    const buf: array<byte>
    const maxSize: nat
    var pos: nat
    var bytesWritten: nat
    ghost const below: seq<byte>
    ghost var written: seq<byte>

    ghost predicate Valid()
      reads this, buf
    {
      && bytesWritten == |written|
      && (!sizing ==> bytesWritten <= maxSize && pos == |below| + bytesWritten && |below| + maxSize <= buf.Length)
      && (!sizing ==> buf[..pos] == below + written)
    }

    predicate Room(n: nat)
      reads this
    {
      sizing || bytesWritten + n <= maxSize
    }

    /** `pb_ostream_from_buffer` */
    constructor FromBuffer(buf: array<byte>, size: nat)
      requires size <= buf.Length
      ensures Valid() && this.buf == buf && !sizing && maxSize == size && below == written == []
    {
      this.buf, sizing, maxSize, pos, bytesWritten, below, written := buf, false, size, 0, 0, [], [];
    }

    /** `PB_OSTREAM_SIZING` */
    constructor Sizing()
      ensures Valid() && sizing && written == [] && fresh(buf)
    {
      buf, sizing, maxSize, pos, bytesWritten, below, written := new byte[0], true, 0, 0, 0, [], [];
    }

    /** The substream of `pb_encode_submessage`: same buffer, same cursor, `size` bytes at most. */
    constructor Within(s: OStream, size: nat)
      requires s.Valid() && !s.sizing && s.Room(size)
      ensures Valid() && buf == s.buf && !sizing && maxSize == size && below == s.below + s.written && written == []
    {
      buf, sizing, maxSize, pos, bytesWritten := s.buf, false, size, s.pos, 0;
      below, written := s.below + s.written, [];
    }

    /** `pb_write` */
    method Write(bytes: seq<byte>) returns (st: Status)
      requires Valid()
      modifies this, buf
      ensures Valid()
      ensures st == if old(Room(|bytes|)) then Ok else StreamFull
      ensures st.Ok? ==> written == old(written) + bytes
    {
      if |bytes| > 0 && !sizing {
        if bytesWritten + |bytes| > maxSize { return StreamFull; }
        Store(bytes);
      }
      bytesWritten := bytesWritten + |bytes|;
      written := written + bytes;
      return Ok;
    }

    /** `buf_write` */
    method Store(bytes: seq<byte>)
      requires !sizing && pos + |bytes| <= buf.Length
      modifies this`pos, buf
      ensures pos == old(pos) + |bytes| && buf[..pos] == old(buf[..pos]) + bytes
    {
      var start := pos;
      for k := 0 to |bytes|
        invariant pos == start && buf[..start + k] == old(buf[..pos]) + bytes[..k]
      {
        buf[start + k] := bytes[k];
        assert buf[..start + k + 1] == buf[..start + k] + [bytes[k]];
      }
      pos := pos + |bytes|;
    }

    /** `pb_write` with no data on a sizing stream. */
    method Count(n: nat, ghost bytes: seq<byte>)
      requires Valid() && sizing && |bytes| == n
      modifies this
      ensures Valid() && written == old(written) + bytes
    {
      bytesWritten := bytesWritten + n;
      written := written + bytes;
    }

    /** `pb_encode_varint` */
    method WriteVarint(value: nat) returns (st: Status)
      requires Valid() && value < TWO64
      modifies this, buf
      ensures Valid()
      ensures st == if old(Room(|EncVarint(value)|)) then Ok else StreamFull
      ensures st.Ok? ==> written == old(written) + EncVarint(value)
    {
      var bytes := VarintBytes(value);
      st := Write(bytes);
    }
  }

  /** `pb_encode_string`: length prefix and contents. */
  method WriteDelimited(out: OStream, bytes: seq<byte>) returns (st: Status)
    requires out.Valid() && |bytes| < TWO64
    modifies out, out.buf
    ensures out.Valid()
    ensures st == if old(out.Room(|Delimited(bytes)|)) then Ok else StreamFull
    ensures st.Ok? ==> out.written == old(out.written) + Delimited(bytes)
  {
    st := out.WriteVarint(|bytes|);
    if st.Ok? { st := out.Write(bytes); }
  }

  /** `pb_enc_*` for everything but submessages. */
  method EncodeScalar(out: OStream, f: Field, v: Value) returns (st: Status)
    requires out.Valid() && WFField(f) && TypedScalar(f, v)
    modifies out, out.buf
    ensures out.Valid()
    ensures st.Ok? <==> EncScalar(f, v).Some? && old(out.Room(|EncScalar(f, v).value|))
    ensures st.Ok? ==> out.written == old(out.written) + EncScalar(f, v).value
    ensures !st.SubmsgSizeChanged?
  {
    hide EncVarint, LittleEndian;
    match f.ltype {
      case Bool => st := out.WriteVarint(if v.n != 0 then 1 else 0);
      case Varint => st := out.WriteVarint(Word64(v.n));
      case UVarint => st := out.WriteVarint(v.n);
      case SVarint =>
        ZigZagValue(v.n);
        st := out.WriteVarint(ZigZag(v.n));
      case Fixed32 => st := out.Write(LittleEndian(v.n, 4));
      case Fixed64 => st := out.Write(LittleEndian(v.n, 8));
      case Bytes =>
        if |v.bytes| + 4 > f.dataSize { return BytesSizeExceeded; }
        st := WriteDelimited(out, v.bytes);
      case String => st := WriteDelimited(out, v.bytes);
      case FixedLengthBytes => st := WriteDelimited(out, v.bytes);
    }
  }

  lemma ItemCount(f: Field, items: seq<Value>)
    requires TypedItems(f, items)
    ensures |items| <= PB_SIZE_MAX
  {}

  lemma FieldFacts(fs: seq<Field>, slots: seq<Slot>, i: nat)
    requires WFFields(fs) && TypedMsg(fs, slots) && i < |fs|
    ensures |slots| == |fs| && WFField(fs[i]) && 1 <= fs[i].tag < 0x2000_0000
    ensures fs[i].htype.Repeated? ==> slots[i].Many? && TypedItems(fs[i], slots[i].items)
  {
    assert TypedSlot(fs, i, slots[i]) && WFField(fs[i]);
  }

  lemma NoItems(f: Field, items: seq<Value>, tagged: bool)
    requires WFField(f) && TypedItems(f, items)
    ensures TypedItems(f, items[..0]) && EncItems(f, items[..0], tagged) == Some([])
  {}

  lemma OneMoreItem(f: Field, items: seq<Value>, tagged: bool, n: nat)
    requires WFField(f) && TypedItems(f, items) && n < |items|
    ensures TypedValue(f, items[n]) && TypedItems(f, items[..n]) && TypedItems(f, items[..n + 1])
    ensures EncItems(f, items[..n + 1], tagged) ==
      Cat(EncItems(f, items[..n], tagged), Cat(Some(if tagged then FieldTag(f) else []), EncValue(f, items[n])))
    ensures EncItems(f, items, tagged).Some? ==> EncItems(f, items[..n + 1], tagged).Some?
    ensures EncItems(f, items, tagged).Some? ==>
      |EncItems(f, items[..n + 1], tagged).value| <= |EncItems(f, items, tagged).value|
  {
    hide WFField, TypedValue, EncValue, EncVarint;
    assert items[..n + 1][..n] == items[..n];
    if EncItems(f, items, tagged).Some? { EncItemsPrefix(f, items, tagged, n + 1); }
  }

  /** `pb_enc_submessage` and the scalar encoders. */
  method EncodeValue(out: OStream, f: Field, v: Value) returns (st: Status)
    requires out.Valid() && WFField(f) && TypedValue(f, v)
    modifies out, out.buf
    ensures out.Valid()
    ensures st.Ok? <==> EncValue(f, v).Some? && old(out.Room(|EncValue(f, v).value|))
    ensures st.Ok? ==> out.written == old(out.written) + EncValue(f, v).value
    ensures !st.SubmsgSizeChanged?
    decreases f, 0, 0
  {
    if f.ltype.Submessage? {
      st := EncodeSubmessage(out, f.sub, v.slots);
    } else {
      st := EncodeScalar(out, f, v);
    }
  }

  /** `pb_encode_submessage`: a sizing pass for the length prefix, then a pass into a substream of exactly
      that size. The two passes always agree, so "submsg size changed" is never reported. */
  method EncodeSubmessage(out: OStream, fs: seq<Field>, slots: seq<Slot>) returns (st: Status)
    requires out.Valid() && WFFields(fs) && TypedMsg(fs, slots)
    modifies out, out.buf
    ensures out.Valid()
    ensures st.Ok? <==> EncSub(fs, slots).Some? && old(out.Room(|EncSub(fs, slots).value|))
    ensures st.Ok? ==> out.written == old(out.written) + EncSub(fs, slots).value
    ensures !st.SubmsgSizeChanged?
    decreases fs, 3, 0
  {
    hide WFFields, TypedMsg, EncMsg, EncVarint;
    var sizer := new OStream.Sizing();
    st := EncodeMessage(sizer, fs, slots);
    if !st.Ok? { return; }
    var size := sizer.bytesWritten;
    if size >= TWO64 { return SizeOverflow; }
    ghost var body := EncMsg(fs, slots).value;
    st := out.WriteVarint(size);
    if !st.Ok? { return; }
    if out.sizing {
      out.Count(size, body);
      return;
    }
    if out.bytesWritten + size > out.maxSize { return StreamFull; }
    st := EncodeWithin(out, fs, slots, size);
  }

  /** The second pass of `pb_encode_submessage`. */
  method EncodeWithin(out: OStream, fs: seq<Field>, slots: seq<Slot>, size: nat) returns (st: Status)
    requires out.Valid() && WFFields(fs) && TypedMsg(fs, slots) && !out.sizing
    requires EncMsg(fs, slots).Some? && size == |EncMsg(fs, slots).value| && out.Room(size)
    modifies out, out.buf
    ensures out.Valid() && st.Ok? && out.written == old(out.written) + EncMsg(fs, slots).value
    decreases fs, 2, 1
  {
    hide WFFields, TypedMsg, EncMsg;
    var sub := new OStream.Within(out, size);
    st := EncodeMessage(sub, fs, slots);
    out.bytesWritten := out.bytesWritten + sub.bytesWritten;
    out.pos := sub.pos;
    out.written := out.written + sub.written;
    assert sub.below + sub.written == out.below + out.written;
    if sub.bytesWritten != size {
      assert false;
      return SubmsgSizeChanged;
    }
  }

  lemma NoFields(fs: seq<Field>, slots: seq<Slot>)
    requires WFFields(fs) && TypedMsg(fs, slots)
    ensures EncUpTo(fs, slots, 0) == Some([]) && EncMsg(fs, slots) == EncUpTo(fs, slots, |fs|)
  {}

  lemma OneMoreField(fs: seq<Field>, slots: seq<Slot>, k: nat)
    requires WFFields(fs) && TypedMsg(fs, slots) && k < |fs| && EncUpTo(fs, slots, k).Some?
    ensures var next, field := EncUpTo(fs, slots, k + 1), EncField(fs, slots, k);
      && (next.Some? <==> field.Some?)
      && (next.Some? ==> next.value == EncUpTo(fs, slots, k).value + field.value)
    ensures EncMsg(fs, slots).Some? ==>
      EncUpTo(fs, slots, k + 1).Some? && |EncUpTo(fs, slots, k + 1).value| <= |EncMsg(fs, slots).value|
  {
    hide EncField, WFFields, TypedMsg;
    if EncMsg(fs, slots).Some? { EncUpToPrefix(fs, slots, k + 1, |fs|); }
  }

  /** `pb_encode` */
  method EncodeMessage(out: OStream, fs: seq<Field>, slots: seq<Slot>) returns (st: Status)
    requires out.Valid() && WFFields(fs) && TypedMsg(fs, slots)
    modifies out, out.buf
    ensures out.Valid()
    ensures st.Ok? <==> EncMsg(fs, slots).Some? && old(out.Room(|EncMsg(fs, slots).value|))
    ensures st.Ok? ==> out.written == old(out.written) + EncMsg(fs, slots).value
    ensures !st.SubmsgSizeChanged?
    decreases fs, 2, 0
  {
    hide WFFields, TypedMsg, EncField, EncUpTo, EncMsg, Cat;
    TagsNonzero(fs);
    var iter := new FieldIter.Begin(fs);
    NoFields(fs, slots);
    if fs == [] { return Ok; }
    st := Ok;
    while true
      invariant iter.Valid() && fresh(iter) && iter.fields == fs && iter.pos < |fs| && st.Ok?
      invariant out.Valid()
      invariant EncUpTo(fs, slots, iter.pos).Some?
      invariant out.written == old(out.written) + EncUpTo(fs, slots, iter.pos).value
      decreases |fs| - iter.pos
    {
      ghost var k := iter.pos;
      OneMoreField(fs, slots, k);
      st := EncodeField(out, fs, slots, iter.pos);
      if !st.Ok? { return; }
      var more := iter.Next();
      if !more { return; }
    }
  }

  /** `encode_basic_field` */
  method EncodeField(out: OStream, fs: seq<Field>, slots: seq<Slot>, i: nat) returns (st: Status)
    requires out.Valid() && WFFields(fs) && TypedMsg(fs, slots) && i < |fs|
    modifies out, out.buf
    ensures out.Valid()
    ensures st.Ok? <==> EncField(fs, slots, i).Some? && old(out.Room(|EncField(fs, slots, i).value|))
    ensures st.Ok? ==> out.written == old(out.written) + EncField(fs, slots, i).value
    ensures !st.SubmsgSizeChanged?
    decreases fs, 1, 0
  {
    hide WFFields, WFField, TypedMsg, TypedSlot, TypedItems, EncArray, EncValue, EncVarint, Present;
    var f := fs[i];
    FieldFacts(fs, slots, i);
    if f.htype.Repeated? {
      st := EncodeArray(out, f, slots[i].items);
    } else {
      var v := Present(fs, slots, i);
      if v.None? { return Ok; }
      st := out.WriteVarint(f.tag * 8 + WireType(f));
      if !st.Ok? { return; }
      st := EncodeValue(out, f, v.value);
    }
  }

  /** `encode_array` */
  method EncodeArray(out: OStream, f: Field, items: seq<Value>) returns (st: Status)
    requires out.Valid() && WFField(f) && TypedItems(f, items)
    modifies out, out.buf
    ensures out.Valid()
    ensures st.Ok? <==> EncArray(f, items).Some? && old(out.Room(|EncArray(f, items).value|))
    ensures st.Ok? ==> out.written == old(out.written) + EncArray(f, items).value
    ensures !st.SubmsgSizeChanged?
    decreases f, 2, 0
  {
    hide WFField, TypedItems, EncItems, EncVarint;
    FieldBounds(f);
    if items == [] { return Ok; }
    if |items| > f.arraySize { return ArrayMaxSizeExceeded; }
    if !f.Packable() {
      st := EncodeItems(out, f, items, true);
      return;
    }
    PackedItemsSize(f, items);
    ItemCount(f, items);
    st := out.WriteVarint(f.tag * 8 + WT_STRING);
    if !st.Ok? { return; }
    var size := PackedSize(f, items);
    st := out.WriteVarint(size);
    if !st.Ok? { return; }
    if out.sizing {
      out.Count(size, EncItems(f, items, false).value);
      return;
    }
    st := EncodeItems(out, f, items, false);
  }

  /** The size of a packed block: computed for fixed-size items, found by a sizing pass otherwise. */
  method PackedSize(f: Field, items: seq<Value>) returns (size: nat)
    requires WFField(f) && TypedItems(f, items) && f.Packable()
    ensures EncItems(f, items, false).Some? && size == |EncItems(f, items, false).value|
    decreases f, 1, 1
  {
    if f.ltype.Fixed32? {
      FixedItemsSize(f, items, 4);
      size := 4 * |items|;
    } else if f.ltype.Fixed64? {
      FixedItemsSize(f, items, 8);
      size := 8 * |items|;
    } else {
      PackedItemsSize(f, items);
      var sizer := new OStream.Sizing();
      var st := EncodeItems(sizer, f, items, false);
      size := sizer.bytesWritten;
    }
  }

  /** The loops of `encode_array`. */
  method EncodeItems(out: OStream, f: Field, items: seq<Value>, tagged: bool) returns (st: Status)
    requires out.Valid() && WFField(f) && TypedItems(f, items)
    modifies out, out.buf
    ensures out.Valid()
    ensures st.Ok? <==> EncItems(f, items, tagged).Some? && old(out.Room(|EncItems(f, items, tagged).value|))
    ensures st.Ok? ==> out.written == old(out.written) + EncItems(f, items, tagged).value
    ensures !st.SubmsgSizeChanged?
    decreases f, 1, 0
  {
    hide WFField, TypedItems, EncItems, EncValue, EncVarint;
    FieldBounds(f);
    st := Ok;
    NoItems(f, items, tagged);
    for n := 0 to |items|
      invariant out.Valid() && st.Ok?
      invariant TypedItems(f, items[..n]) && EncItems(f, items[..n], tagged).Some?
      invariant out.written == old(out.written) + EncItems(f, items[..n], tagged).value
      invariant old(out.Room(|EncItems(f, items[..n], tagged).value|))
    {
      OneMoreItem(f, items, tagged, n);
      if tagged {
        st := out.WriteVarint(f.tag * 8 + WireType(f));
        if !st.Ok? { return; }
      }
      st := EncodeValue(out, f, items[n]);
      if !st.Ok? { return; }
    }
    assert items[..|items|] == items;
  }

  /** `pb_get_encoded_size`: the byte count of the sizing pass is the number of bytes the message takes. */
  method EncodedSize(fs: seq<Field>, slots: seq<Slot>) returns (st: Status, size: nat)
    requires WFFields(fs) && TypedMsg(fs, slots)
    ensures st.Ok? <==> EncMsg(fs, slots).Some?
    ensures st.Ok? ==> size == |EncMsg(fs, slots).value|
  {
    var sizer := new OStream.Sizing();
    st := EncodeMessage(sizer, fs, slots);
    size := sizer.bytesWritten;
  }

  /** A message goes into a buffer exactly when its encoded size does, and that many bytes are used. */
  method EncodeToBuffer(fs: seq<Field>, slots: seq<Slot>, buf: array<byte>) returns (st: Status, size: nat)
    requires WFFields(fs) && TypedMsg(fs, slots)
    modifies buf
    ensures st.Ok? <==> EncMsg(fs, slots).Some? && |EncMsg(fs, slots).value| <= buf.Length
    ensures st.Ok? ==> size <= buf.Length && buf[..size] == EncMsg(fs, slots).value
    ensures !st.SubmsgSizeChanged?
  {
    var out := new OStream.FromBuffer(buf, buf.Length);
    st := EncodeMessage(out, fs, slots);
    size := out.bytesWritten;
    assert buf[..out.pos] == out.written;
  }
}
