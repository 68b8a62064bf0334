/** Decoding what the encoder wrote gives the message back, up to what its flags hide; and exactly which
    messages fail to come back. */
module RoundTrip {
  import opened Bits
  import opened Varint
  import opened Descriptor
  import opened Encoding
  import opened Decoding

  // ---- What comes back -----------------------------------------------------------------------

  /** A value as it comes back: what a false has-flag or an unset union hides is put to its default, and so is a
      zero in an optional field without has-flag, which is not written. */
  function CanonValue(f: Field, v: Value): Value
    requires TypedValue(f, v)
    decreases f, 0
  {
    if f.ltype.Submessage? then Msg(CanonMsg(f.sub, v.slots)) else v
  }

  function CanonItems(f: Field, items: seq<Value>): (r: seq<Value>)
    requires TypedItems(f, items)
    ensures |r| == |items|
    decreases f, 1
  {
    seq(|items|, k requires 0 <= k < |items| => CanonValue(f, items[k]))
  }

  function CanonSlot(fs: seq<Field>, i: nat, slot: Slot): Slot
    requires i < |fs| && TypedSlot(fs, i, slot)
    decreases fs, 0
  {
    match slot
    case One(v) =>
      One(if fs[i].htype.Optional? && ZeroSingular(fs[i], v) then InitValue(fs[i]) else CanonValue(fs[i], v))
    case Opt(has, v) => if has then Opt(true, CanonValue(fs[i], v)) else Opt(false, InitValue(fs[i]))
    case Many(items) => Many(CanonItems(fs[i], items))
    case Union(which, v) => if which == 0 then Union(0, Num(0)) else Union(which, CanonValue(fs[FindTag(fs, which)], v))
    case Shared => Shared
  }

  function CanonMsg(fs: seq<Field>, slots: seq<Slot>): (r: seq<Slot>)
    requires TypedMsg(fs, slots)
    ensures |r| == |fs|
    decreases fs, 1
  {
    seq(|fs|, i requires 0 <= i < |fs| => CanonSlot(fs, i, slots[i]))
  }

  lemma {:induction false} CanonValueTyped(f: Field, v: Value)
    requires WFField(f) && TypedValue(f, v)
    ensures TypedValue(f, CanonValue(f, v))
    decreases f, 0
  {
    if f.ltype.Submessage? { CanonMsgTyped(f.sub, v.slots); }
  }

  lemma {:induction false} CanonItemsTyped(f: Field, items: seq<Value>)
    requires WFField(f) && TypedItems(f, items)
    ensures TypedItems(f, CanonItems(f, items))
    decreases f, 1
  {
    forall k | 0 <= k < |items| ensures TypedValue(f, CanonItems(f, items)[k]) {
      CanonValueTyped(f, items[k]);
    }
  }

  lemma {:induction false} CanonSlotTyped(fs: seq<Field>, i: nat, slot: Slot)
    requires WFFields(fs) && i < |fs| && TypedSlot(fs, i, slot)
    ensures TypedSlot(fs, i, CanonSlot(fs, i, slot))
    decreases fs, 0
  {
    assert WFField(fs[i]);
    InitValueTyped(fs[i]);
    match slot {
      case One(v) => CanonValueTyped(fs[i], v);
      case Opt(has, v) => CanonValueTyped(fs[i], v);
      case Many(items) => CanonItemsTyped(fs[i], items);
      case Union(which, v) =>
        if which != 0 {
          assert WFField(fs[FindTag(fs, which)]);
          CanonValueTyped(fs[FindTag(fs, which)], v);
        }
      case Shared =>
    }
  }

  lemma {:induction false} CanonMsgTyped(fs: seq<Field>, slots: seq<Slot>)
    requires WFFields(fs) && TypedMsg(fs, slots)
    ensures TypedMsg(fs, CanonMsg(fs, slots))
    decreases fs, 1
  {
    forall i | 0 <= i < |fs| ensures TypedSlot(fs, i, CanonMsg(fs, slots)[i]) {
      CanonSlotTyped(fs, i, slots[i]);
    }
  }

  // ---- When it comes back --------------------------------------------------------------------

  /** A string that fills its buffer has no room for the terminator the decoder wants, and the decoder
      reads lengths as 32-bit numbers. */
  predicate FitsValue(f: Field, v: Value)
    requires WFField(f) && TypedValue(f, v) && EncValue(f, v).Some?
    decreases f, 0
  {
    if f.ltype.Submessage? then
      assert EncValue(f, v) == EncSub(f.sub, v.slots);
      FitsMsg(f.sub, v.slots) && |EncMsg(f.sub, v.slots).value| < TWO32
    else f.ltype.String? ==> |v.bytes| < f.dataSize
  }

  predicate FitsItem(f: Field, items: seq<Value>, k: nat)
    requires WFField(f) && TypedItems(f, items) && EncItems(f, items, true).Some? && k < |items|
    decreases f, 1
  {
    ItemEncodes(f, items, k);
    FitsValue(f, items[k])
  }

  predicate FitsField(fs: seq<Field>, slots: seq<Slot>, i: nat)
    requires WFFields(fs) && TypedMsg(fs, slots) && i < |fs| && EncField(fs, slots, i).Some?
    decreases fs, 0
  {
    var f := fs[i];
    assert WFField(f);
    if f.htype.Repeated? then
      var items := ItemsOf(fs, i, slots);
      assert EncField(fs, slots, i) == EncArray(f, items);
      if items == [] then true
      else if f.Packable() then |EncItems(f, items, false).value| < TWO32
      else forall k :: 0 <= k < |items| ==> FitsItem(f, items, k)
    else
      var v := Present(fs, slots, i);
      v.Some? ==> FitsValue(f, v.value)
  }

  predicate FitsUpTo(fs: seq<Field>, slots: seq<Slot>, n: nat)
    requires WFFields(fs) && TypedMsg(fs, slots) && n <= |fs| && EncUpTo(fs, slots, n).Some?
    decreases fs, 1, n
  {
    n == 0 || (FitsUpTo(fs, slots, n - 1) && FitsField(fs, slots, n - 1))
  }

  /** Every string leaves room for its terminator and every length prefix is below 2^32. */
  predicate FitsMsg(fs: seq<Field>, slots: seq<Slot>)
    requires WFFields(fs) && TypedMsg(fs, slots) && EncMsg(fs, slots).Some?
    decreases fs, 2
  {
    FitsUpTo(fs, slots, |fs|)
  }

  lemma {:induction false} ItemEncodes(f: Field, items: seq<Value>, k: nat)
    requires WFField(f) && TypedItems(f, items) && EncItems(f, items, true).Some? && k < |items|
    ensures EncValue(f, items[k]).Some?
  {
    EncItemsPrefix(f, items, true, k + 1);
    assert items[..k + 1][k] == items[k];
  }

  // ---- Zero values are the defaults ----------------------------------------------------------

  /** What the encoder leaves out because it is zero is what the decoder starts from, unless the field has an explicit
      default. */
  lemma {:induction false} ZeroIsInit(f: Field, v: Value)
    requires WFField(f) && TypedValue(f, v) && ZeroSingular(f, v)
    requires f.ltype.Submessage? || f.dflt.None?
    ensures CanonValue(f, v) == InitValue(f)
    decreases f, 0
  {
    if f.ltype.Submessage? {
      forall j | 0 <= j < |f.sub| ensures CanonMsg(f.sub, v.slots)[j] == InitMsg(f.sub)[j] {
        assert ZeroField(f.sub, v.slots, j);
        ZeroSlotIsInit(f.sub, v.slots, j);
      }
    }
  }

  lemma ZeroSlotIsInit(fs: seq<Field>, slots: seq<Slot>, j: nat)
    requires WFFields(fs) && TypedMsg(fs, slots) && j < |fs| && ZeroField(fs, slots, j)
    ensures CanonSlot(fs, j, slots[j]) == InitSlot(fs, j)
  {
    assert WFField(fs[j]) && TypedSlot(fs, j, slots[j]);
  }

  /** A field without has-flag or count comes back as it was exactly when it is required, or not zero, or its default is
      what it holds; without an explicit default it always does. */
  lemma PlainFieldComesBack(fs: seq<Field>, slots: seq<Slot>, i: nat)
    requires WFFields(fs) && TypedMsg(fs, slots) && i < |fs| && slots[i].One?
    ensures var f, v := fs[i], slots[i].v;
      && (CanonSlot(fs, i, slots[i]) == One(CanonValue(f, v))
          <==> f.htype.Required? || !ZeroSingular(f, v) || InitValue(f) == CanonValue(f, v))
      && (f.ltype.Submessage? || f.dflt.None? ==> CanonSlot(fs, i, slots[i]) == One(CanonValue(f, v)))
  {
    hide CanonValue, InitValue, ZeroSingular, TypedValue;
    var f := fs[i];
    assert WFField(f) && TypedSlot(fs, i, slots[i]);
    if ZeroSingular(f, slots[i].v) && (f.ltype.Submessage? || f.dflt.None?) { ZeroIsInit(f, slots[i].v); }
  }

  // ---- Scalars -------------------------------------------------------------------------------

  lemma {:induction false} LittleEndianRoundTrip(v: nat, n: nat)
    requires v < Pow2(8 * n)
    ensures FromLittleEndian(LittleEndian(v, n)) == v
  {
    if n > 0 {
      var k := 8 * (n - 1);
      ShlShl(1, k, 7); Shl7(Pow2(k));
      assert Pow2(k + 8) == 2 * Pow2(k + 7);
      LittleEndianRoundTrip(v / 256, n - 1);
      assert LittleEndian(v, n)[1..] == LittleEndian(v / 256, n - 1);
    }
  }

  lemma FixedRoundTrip(v: nat, n: nat, rest: seq<byte>)
    requires (n == 4 && v < TWO32) || (n == 8 && v < TWO64)
    ensures var b := LittleEndian(v, n) + rest; b[..n] == LittleEndian(v, n) && b[n..] == rest
    ensures FromLittleEndian(LittleEndian(v, n)) == v
  {
    hide Shl, LittleEndian, FromLittleEndian;
    Shl32(1); ShlShl(1, 32, 32); Shl32(TWO32);
    LittleEndianRoundTrip(v, n);
  }

  /** Sign extension to 64 bits and the decoder's cast undo each other, for every field width. */
  lemma SignedRoundTrip(n: int)
    requires -0x8000_0000_0000_0000 <= n < 0x8000_0000_0000_0000
    ensures ToSigned(Word64(n), TWO64) == n
    ensures -0x8000_0000 <= n < 0x8000_0000 ==> ToSigned(Low32(Word64(n)), TWO32) == n
  {
    if -0x8000_0000 <= n < 0 {
      Low32Plus(n + TWO32, TWO32 - 1);
    }
  }

  lemma NumberRoundTrip(f: Field, n: int, rest: seq<byte>)
    requires WFField(f) && TypedScalar(f, Num(n)) && (f.ltype.Varint? || f.ltype.UVarint? || f.ltype.SVarint?)
    ensures DecScalar(f, EncScalar(f, Num(n)).value + rest) == Done(Num(n), rest)
  {
    hide DecVarint, EncVarint, ZigZag, UnZigZag, Low32, WFField;
    IntSizes(f);
    if f.ltype.Varint? {
      SignedRoundTrip(n);
      VarintRoundTrip(Word64(n), rest);
    } else if f.ltype.UVarint? {
      VarintRoundTrip(n, rest);
    } else {
      ZigZagRoundTrip(n, rest);
    }
  }

  lemma IntSizes(f: Field)
    requires WFField(f) && (f.ltype.Varint? || f.ltype.UVarint? || f.ltype.SVarint?)
    ensures IntSize(f.dataSize)
  {}

  lemma StringRoundTrip(f: Field, v: Value, rest: seq<byte>)
    requires WFField(f) && TypedScalar(f, v) && (f.ltype.Bytes? || f.ltype.String? || f.ltype.FixedLengthBytes?)
    requires EncScalar(f, v).Some?
    ensures DecScalar(f, EncScalar(f, v).value + rest) ==
      if f.ltype.String? && |v.bytes| == f.dataSize then Fail else Done(v, rest)
  {
    hide DecVarint32, EncVarint, WFField;
    var s := v.bytes;
    FieldBounds(f);
    Varint32RoundTrip(|s|, s + rest);
    assert Delimited(s) + rest == EncVarint(|s|) + (s + rest);
    assert (s + rest)[..|s|] == s && (s + rest)[|s|..] == rest;
    if f.ltype.String? {
      CStringWhole(s);
    } else if f.ltype.FixedLengthBytes? && s == [] {
      assert seq(0, _ => 0) == s;
    }
  }

  lemma {:induction false} CStringWhole(s: seq<byte>)
    requires forall k :: 0 <= k < |s| ==> s[k] != 0
    ensures CString(s) == s
  {
    if s != [] { CStringWhole(s[1..]); }
  }

  lemma ScalarRoundTrip(f: Field, v: Value, rest: seq<byte>)
    requires WFField(f) && TypedScalar(f, v) && EncScalar(f, v).Some?
    ensures DecScalar(f, EncScalar(f, v).value + rest) ==
      if f.ltype.String? && |v.bytes| == f.dataSize then Fail else Done(v, rest)
  {
    hide DecVarint32, DecVarint, EncVarint, LittleEndian, FromLittleEndian, SizedBytes, NumberOf, WFField;
    if f.ltype.Bool? {
      Varint32RoundTrip(v.n, rest);
    } else if f.ltype.Fixed32? {
      FixedRoundTrip(v.n, 4, rest);
    } else if f.ltype.Fixed64? {
      FixedRoundTrip(v.n, 8, rest);
    } else if f.ltype.Varint? || f.ltype.UVarint? || f.ltype.SVarint? {
      NumberRoundTrip(f, v.n, rest);
    } else {
      StringRoundTrip(f, v, rest);
    }
  }
}
