/** What the encoder's bytes mean to a reader that does not share its tables, and what the decoder makes of bytes from
    any writer: the formats of the Protocol Buffers encoding specification, stated without the codec's own functions.
    */
module WireFormat {
  import opened Bits
  import opened Varint
  import opened PbInput
  import opened Descriptor
  import opened Encoding
  import opened Decoding
  import opened Merge
  import opened Packed

  // ---- Wire types ----------------------------------------------------------------------------------

  /** The widths of the wire types, by number: 1 has eight bytes, 5 has four, 2 a length prefix, 0 ends at the first
      byte below 128, and no other type can be skipped. */
  lemma SkipWidths(bs: seq<byte>, n: nat)
    ensures SkipPayload(1, bs) == if |bs| >= 8 then Done((), bs[8..]) else Fail
    ensures SkipPayload(5, bs) == if |bs| >= 4 then Done((), bs[4..]) else Fail
    ensures 0 < n <= |bs| && bs[n - 1] < 128 && (forall k :: 0 <= k < n - 1 ==> bs[k] >= 128) ==>
      SkipPayload(0, bs) == Done((), bs[n..])
    ensures bs != [] && bs[0] < 128 && |bs| > bs[0] ==> SkipPayload(2, bs) == Done((), bs[1 + bs[0]..])
    ensures SkipPayload(3, bs) == SkipPayload(4, bs) == SkipPayload(6, bs) == SkipPayload(7, bs) == Fail
  {
    if 0 < n <= |bs| && bs[n - 1] < 128 && (forall k :: 0 <= k < n - 1 ==> bs[k] >= 128) {
      LengthIs(bs, bs[..n], bs[n..]);
    }
    if bs != [] && bs[0] < 128 && |bs| > bs[0] {
      assert bs[1..][bs[0]..] == bs[1 + bs[0]..];
    }
  }

  /** Tag and wire type are one varint, the wire type in its low three bits. */
  lemma TagOnWire(tag: nat, wire: nat, rest: seq<byte>)
    requires 1 <= tag < 0x2000_0000 && wire < 8
    ensures DecVarint(TagBytes(tag, wire) + rest) == Done(8 * tag + wire, rest)
  {
    VarintRoundTrip(tag * 8 + wire, rest);
  }

  /** A payload written for a field is skipped whole by its wire type. */
  lemma ScalarSkipped(f: Field, v: Value, rest: seq<byte>)
    requires WFField(f) && TypedScalar(f, v) && EncScalar(f, v).Some? && |EncScalar(f, v).value| < TWO32
    ensures SkipPayload(WireType(f), EncScalar(f, v).value + rest) == Done((), rest)
  {
    hide EncVarint, DecVarint32, VarintLen, ZigZag, Word64;
    var e := EncScalar(f, v).value;
    if f.Packable() && !f.ltype.Fixed32? && !f.ltype.Fixed64? {
      var w := if f.ltype.Varint? then Word64(v.n) else if f.ltype.SVarint? then ZigZag(v.n) else v.n;
      assert e == EncVarint(w);
      EncVarintShape(w, rest);
    } else if f.ltype.Fixed32? || f.ltype.Fixed64? {
      assert (e + rest)[|e|..] == rest;
    } else {
      BlockRoundTrip(v.bytes, rest);
    }
  }

  lemma ValueSkipped(f: Field, v: Value, rest: seq<byte>)
    requires WFField(f) && TypedValue(f, v) && EncValue(f, v).Some? && |EncValue(f, v).value| < TWO32
    ensures SkipPayload(WireType(f), EncValue(f, v).value + rest) == Done((), rest)
  {
    hide EncScalar, EncMsg;
    if f.ltype.Submessage? {
      assert EncValue(f, v) == EncSub(f.sub, v.slots);
      BlockRoundTrip(EncMsg(f.sub, v.slots).value, rest);
    } else {
      ScalarSkipped(f, v, rest);
    }
  }

  /** One record with a tag the reader does not know. */
  lemma RecordSkipped(fs: seq<Field>, tag: nat, wire: nat, payload: seq<byte>, rest: seq<byte>, st: DecState)
    requires WFFields(fs) && WFState(fs, st) && 1 <= tag < 0x2000_0000 && wire < 8 && FindTag(fs, tag) == |fs|
    requires SkipPayload(wire, payload + []) == Done((), [])
    ensures DecFields(fs, TagBytes(tag, wire) + payload + rest, st) == DecFields(fs, rest, st)
  {
    hide WFFields, WFState, DecFields, SkipPayload, TagBytes;
    var t := TagBytes(tag, wire);
    TagRoundTrip(tag, wire, []);
    assert t + [] == t && payload + [] == payload;
    UnknownSkipped(fs, t, payload, rest, st);
  }

  /** A packable array is a single record of wire type 2, whatever its items' own wire type. */
  lemma PackedIsOneRecord(f: Field, items: seq<Value>, rest: seq<byte>)
    requires WFField(f) && TypedItems(f, items) && f.Packable() && 0 < |items|
    requires EncArray(f, items).Some? && |EncArray(f, items).value| < TWO32
    ensures var r := DecTag(EncArray(f, items).value + rest);
      r.Tag? && r.tag == f.tag && r.wire == 2 && SkipPayload(2, r.rest) == Done((), rest)
  {
    hide WFField, TypedItems, EncItems, DecVarint32, TagBytes;
    FieldBounds(f);
    var block := EncItems(f, items, false).value;
    var e := EncArray(f, items).value;
    assert e + rest == TagBytes(f.tag, 2) + (Delimited(block) + rest);
    TagRoundTrip(f.tag, 2, Delimited(block) + rest);
    BlockRoundTrip(block, rest);
  }

  lemma {:induction false} ItemsSkipped(f: Field, items: seq<Value>, fs: seq<Field>, rest: seq<byte>, st: DecState)
    requires WFField(f) && TypedItems(f, items) && EncItems(f, items, true).Some?
    requires |EncItems(f, items, true).value| < TWO32
    requires WFFields(fs) && WFState(fs, st) && FindTag(fs, f.tag) == |fs|
    ensures DecFields(fs, EncItems(f, items, true).value + rest, st) == DecFields(fs, rest, st)
    decreases |items|
  {
    hide WFField, WFFields, WFState, TypedValue, EncValue, DecFields, SkipPayload, TagBytes;
    if items == [] {
      assert [] + rest == rest;
    } else {
      var n := |items| - 1;
      var first, last := EncItems(f, items[..n], true).value, EncValue(f, items[n]).value;
      FieldBounds(f);
      ValueSkipped(f, items[n], []);
      RecordSkipped(fs, f.tag, WireType(f), last, rest, st);
      ItemsSkipped(f, items[..n], fs, FieldTag(f) + last + rest, st);
      assert EncItems(f, items, true).value + rest == first + (FieldTag(f) + last + rest);
    }
  }

  lemma ArraySkipped(f: Field, items: seq<Value>, fs: seq<Field>, rest: seq<byte>, st: DecState)
    requires WFField(f) && TypedItems(f, items) && EncArray(f, items).Some? && |EncArray(f, items).value| < TWO32
    requires WFFields(fs) && WFState(fs, st) && FindTag(fs, f.tag) == |fs|
    ensures DecFields(fs, EncArray(f, items).value + rest, st) == DecFields(fs, rest, st)
  {
    hide WFField, WFFields, WFState, TypedItems, EncItems, DecFields, SkipPayload, TagBytes;
    if items == [] {
      assert [] + rest == rest;
    } else if f.Packable() {
      FieldBounds(f);
      var block := EncItems(f, items, false).value;
      assert SkipPayload(2, Delimited(block) + []) == Done((), []) by { BlockSkipped(block); }
      RecordSkipped(fs, f.tag, 2, Delimited(block), rest, st);
    } else {
      ItemsSkipped(f, items, fs, rest, st);
    }
  }

  lemma BlockSkipped(block: seq<byte>)
    requires |block| < TWO32
    ensures SkipPayload(2, Delimited(block) + []) == Done((), [])
  {
    hide DecVarint32;
    BlockRoundTrip(block, []);
  }

  lemma FieldSkipped(fs: seq<Field>, slots: seq<Slot>, i: nat, reader: seq<Field>, rest: seq<byte>, st: DecState)
    requires WFFields(fs) && TypedMsg(fs, slots) && i < |fs|
    requires EncField(fs, slots, i).Some? && |EncField(fs, slots, i).value| < TWO32
    requires WFFields(reader) && WFState(reader, st) && FindTag(reader, fs[i].tag) == |reader|
    ensures DecFields(reader, EncField(fs, slots, i).value + rest, st) == DecFields(reader, rest, st)
  {
    hide WFField, WFState, TypedValue, EncValue, EncArray, DecFields, SkipPayload, TagBytes, FindTag, Present;
    var f := fs[i];
    assert WFField(f) && TypedSlot(fs, i, slots[i]);
    FieldBounds(f);
    if f.htype.Repeated? {
      ArraySkipped(f, slots[i].items, reader, rest, st);
    } else {
      var v := Present(fs, slots, i);
      if v.None? {
        assert [] + rest == rest;
      } else {
        ValueSkipped(f, v.value, []);
        RecordSkipped(reader, f.tag, WireType(f), EncValue(f, v.value).value, rest, st);
      }
    }
  }

  /** The reader's table has none of the writer's tags. */
  predicate Foreign(fs: seq<Field>, reader: seq<Field>) {
    forall i :: 0 <= i < |fs| ==> FindTag(reader, fs[i].tag) == |reader|
  }

  lemma {:induction false} UpToSkipped(
    fs: seq<Field>, slots: seq<Slot>, n: nat, reader: seq<Field>, rest: seq<byte>, st: DecState)
    requires WFFields(fs) && TypedMsg(fs, slots) && n <= |fs|
    requires EncUpTo(fs, slots, n).Some? && |EncUpTo(fs, slots, n).value| < TWO32
    requires WFFields(reader) && WFState(reader, st) && Foreign(fs, reader)
    ensures DecFields(reader, EncUpTo(fs, slots, n).value + rest, st) == DecFields(reader, rest, st)
    decreases n
  {
    hide WFFields, WFState, TypedMsg, EncField, DecFields, FindTag;
    if n == 0 {
      assert [] + rest == rest;
    } else {
      var before, last := EncUpTo(fs, slots, n - 1).value, EncField(fs, slots, n - 1).value;
      FieldSkipped(fs, slots, n - 1, reader, rest, st);
      UpToSkipped(fs, slots, n - 1, reader, last + rest, st);
      assert before + last + rest == before + (last + rest);
    }
  }

  /** Whatever is encoded, a reader that knows none of its tags passes over it, field by field and to the last byte,
      with its struct unchanged. */
  lemma ForeignMessageSkipped(fs: seq<Field>, slots: seq<Slot>, reader: seq<Field>, rest: seq<byte>, m: seq<Slot>)
    requires WFFields(fs) && TypedMsg(fs, slots) && EncMsg(fs, slots).Some? && |EncMsg(fs, slots).value| < TWO32
    requires WFFields(reader) && TypedMsg(reader, m) && Foreign(fs, reader)
    ensures DecNoinit(reader, EncMsg(fs, slots).value + rest, m) == DecNoinit(reader, rest, m)
  {
    hide WFFields, TypedMsg, EncUpTo, DecFields, Foreign;
    UpToSkipped(fs, slots, |fs|, reader, rest, Start(m));
  }

  // ---- Numbers -----------------------------------------------------------------------------------------

  /** What a 64-bit reader makes of a written number: the number itself, sign-extended if it is negative, or its zigzag
      code. */
  lemma NumberOnWire(f: Field, n: int, rest: seq<byte>)
    requires WFField(f) && TypedScalar(f, Num(n)) && f.Packable() && !f.ltype.Fixed32? && !f.ltype.Fixed64?
    ensures var r := DecVarint(EncScalar(f, Num(n)).value + rest);
      && r.Done? && r.rest == rest
      && r.value == (if f.ltype.SVarint? then (if n < 0 then -2 * n - 1 else 2 * n)
                     else if n < 0 then 0x1_0000_0000_0000_0000 + n else n)
  {
    hide DecVarint, EncVarint, ZigZag;
    if f.ltype.SVarint? {
      ZigZagValue(n);
      ZigZagRoundTrip(n, rest);
    } else {
      VarintRoundTrip(Word64(n), rest);
    }
  }

  lemma DivBy256(v: nat, b: nat)
    requires b > 0
    ensures v / 256 / b == v / (256 * b)
  {
    var x, s := v / 256, v % 256;
    var q, r := x / b, x % b;
    var p := b * q;
    assert x == p + r && r < b;
    assert 256 * b * q == 256 * p by { Times256(b, q); }
    QuotientIs(v, 256 * b, q, 256 * r + s);
  }

  lemma Times256(b: nat, q: nat)
    ensures 256 * b * q == 256 * (b * q)
  {}

  lemma MulBound(a: nat, b: nat, r: nat)
    requires a > 0 && r < b
    ensures a * r + a <= a * b
  {
    assert a * (r + 1) <= a * b;
  }

  lemma QuotientIs(v: nat, d: nat, q: nat, r: nat)
    requires v == d * q + r && r < d
    ensures v / d == q
  {
    var k, s := v / d, v % d;
    assert v == d * k + s;
    if k < q {
      MulBound(d, q, k);
    } else if q < k {
      MulBound(d, k, q);
    }
  }

  /** Fixed-size numbers go out least significant byte first. */
  lemma {:induction false} LittleEndianByte(v: nat, n: nat, k: nat)
    requires k < n
    ensures LittleEndian(v, n)[k] == v / Pow2(8 * k) % 256
    decreases n
  {
    hide Shl;
    if k == 0 {
      ShlNothing(1);
    } else {
      LittleEndianByte(v / 256, n - 1, k - 1);
      DivBy256(v, Pow2(8 * (k - 1)));
      ShlShl(1, 8 * (k - 1), 8);
      ShlByte(Pow2(8 * (k - 1)));
    }
  }

  lemma ShlByte(x: nat)
    ensures Shl(x, 8) == 256 * x
  {
    hide Shl;
    Shl7(x);
    ShlShl(x, 7, 1);
    ShlOnce(128 * x);
  }

  lemma ShlOnce(x: nat)
    ensures Shl(x, 1) == 2 * x
  {}

  // ---- What the decoder accepts -----------------------------------------------------------------------------

  lemma HalfRangeIsPow2(n: nat)
    requires IntSize(n)
    ensures HalfRange(n) == Pow2(8 * n - 1)
  {
    hide Shl;
    Shl7(1);
    ShlShl(1, 7, 8);
    ShlByte(Pow2(7));
    Shl32(1);
    DoublePow2(31);
    Shl63(1);
  }

  /** A number is accepted exactly when the field's bytes can hold it: unsigned ones as they are, zigzag codes
      decoded, and plain signed ones as 64-bit numbers in fields of eight bytes and as 32-bit numbers, cut off, in
      smaller ones. */
  lemma NumberAccepted(f: Field, bs: seq<byte>)
    requires WFField(f) && (f.ltype.Varint? || f.ltype.UVarint? || f.ltype.SVarint?) && DecVarint(bs).Done?
    ensures var w, rest := DecVarint(bs).value, DecVarint(bs).rest;
      var half: int := Pow2(8 * f.dataSize - 1);
      && (f.ltype.UVarint? ==> DecScalar(f, bs) == if w < 2 * half then Done(Num(w), rest) else Fail)
      && (f.ltype.SVarint? ==>
            var n: int := if w % 2 == 0 then w / 2 else -(w / 2) - 1;
            DecScalar(f, bs) == if -half <= n < half then Done(Num(n), rest) else Fail)
      && (f.ltype.Varint? ==>
            var low := w % 0x1_0000_0000;
            var n: int := if f.dataSize == 8 then (if w < 0x8000_0000_0000_0000 then w else w - 0x1_0000_0000_0000_0000)
                          else if low < 0x8000_0000 then low else low - 0x1_0000_0000;
            DecScalar(f, bs) == if -half <= n < half then Done(Num(n), rest) else Fail)
  {
    hide DecVarint, Shl, Low32, Pow2;
    assert IntSize(f.dataSize) && DecVarint(bs).value < TWO64 by { WordBound(bs); }
    HalfRangeIsPow2(f.dataSize);
    Low32IsMod(DecVarint(bs).value);
  }

  /** Every varint but zero is true. */
  lemma BoolAccepted(f: Field, bs: seq<byte>)
    requires WFField(f) && f.ltype.Bool? && DecVarint32(bs).Done?
    ensures DecScalar(f, bs) == Done(Num(if DecVarint32(bs).value == 0 then 0 else 1), DecVarint32(bs).rest)
  {}

  /** A string ends at its first zero byte. */
  lemma {:induction false} StringCutAtZero(a: seq<byte>, b: seq<byte>)
    requires 0 !in a
    ensures CString(a + [0] + b) == a
  {
    if a == [] {
      assert (a + [0] + b)[0] == 0;
    } else {
      StringCutAtZero(a[1..], b);
      assert (a + [0] + b)[1..] == a[1..] + [0] + b;
    }
  }

  /** Fixed-length bytes of length zero are all zeros; any other wrong length is rejected. */
  lemma FixedLengthBytes(f: Field, n: byte, rest: seq<byte>)
    requires WFField(f) && f.ltype.FixedLengthBytes? && n < 128
    ensures n == 0 ==> DecScalar(f, [n] + rest) == Done(Str(seq(f.dataSize, _ => 0)), rest)
    ensures n != 0 && n != f.dataSize ==> DecScalar(f, [n] + rest) == Fail
  {
    assert ([n] + rest)[1..] == rest;
    assert rest[0..] == rest;
  }

  /** A zero byte where a tag is due ends the message, as the end of the input does; what follows is left unread. */
  lemma TerminatorEnds(fs: seq<Field>, rest: seq<byte>, st: DecState)
    requires WFFields(fs) && WFState(fs, st)
    ensures DecFields(fs, [0] + rest, st) == Good(st, rest, true) && DecFields(fs, [], st) == Good(st, [], false)
    ensures DecTag([]) == TagEof([])
  {
    hide WFFields, WFState;
    assert ([0] + rest)[1..] == rest;
  }

  // ---- Defaults are silent -----------------------------------------------------------------------------------

  /** Nothing of the table has to be written: no required field, no fixed-count array, no fixed-length bytes and no
      explicit default without has-flag. */
  predicate Silent(fs: seq<Field>)
    decreases fs, 1
  {
    forall i :: 0 <= i < |fs| ==> SilentField(fs[i])
  }

  predicate SilentField(f: Field)
    decreases f, 0
  {
    match f.htype
    case Required => false
    case Repeated => f.sizeOffset != 0
    case Oneof => true
    case Optional =>
      f.sizeOffset != 0 ||
      (if f.ltype.Submessage? then Silent(f.sub) else f.dflt.None? && (f.ltype.FixedLengthBytes? ==> f.dataSize == 0))
  }

  lemma {:induction false} InitIsSilent(f: Field)
    requires WFField(f) && SilentField(f) && f.htype.Optional? && f.sizeOffset == 0
    ensures TypedValue(f, InitValue(f)) && ZeroSingular(f, InitValue(f))
    decreases f, 0
  {
    InitValueTyped(f);
    if f.ltype.Submessage? {
      forall j | 0 <= j < |f.sub| ensures ZeroField(f.sub, InitMsg(f.sub), j) { FieldIsSilent(f.sub, j); }
    }
  }

  lemma {:induction false} FieldIsSilent(fs: seq<Field>, j: nat)
    requires WFFields(fs) && Silent(fs) && j < |fs| && TypedMsg(fs, InitMsg(fs))
    ensures ZeroField(fs, InitMsg(fs), j)
    decreases fs, 0
  {
    hide ZeroSingular, InitValue, TypedValue;
    var f, h := fs[j], Home(fs, j);
    assert WFField(f) && SilentField(f) && TypedSlot(fs, h, InitMsg(fs)[h]);
    if f.htype.Optional? && f.sizeOffset == 0 { InitIsSilent(f); }
  }

  lemma {:induction false} NothingUpTo(fs: seq<Field>, n: nat)
    requires WFFields(fs) && Silent(fs) && TypedMsg(fs, InitMsg(fs)) && n <= |fs|
    ensures EncUpTo(fs, InitMsg(fs), n) == Some([])
  {
    hide ZeroSingular, InitValue, TypedValue, EncValue;
    if n > 0 {
      NothingUpTo(fs, n - 1);
      var i := n - 1;
      var f, h := fs[i], Home(fs, i);
      assert WFField(f) && SilentField(f);
      FieldBounds(f);
      assert TypedSlot(fs, h, InitMsg(fs)[h]) && TypedSlot(fs, i, InitMsg(fs)[i]);
      if f.htype.Optional? && f.sizeOffset == 0 { InitIsSilent(f); }
      var none: seq<byte> := [];
      assert EncField(fs, InitMsg(fs), i) == Some(none) && none + none == none;
    }
  }

  /** A message in its initial state is no bytes at all, nested messages included. */
  lemma DefaultMessageIsEmpty(fs: seq<Field>)
    requires WFFields(fs) && Silent(fs)
    ensures TypedMsg(fs, InitMsg(fs)) && EncMsg(fs, InitMsg(fs)) == Some([])
  {
    hide WFFields, Silent, TypedMsg, EncUpTo;
    InitMsgTyped(fs);
    NothingUpTo(fs, |fs|);
  }
}
