/** What the encoder writes, as a function of the field table and the struct. */
module Encoding {
  import opened Bits
  import opened Varint
  import opened PbInput
  import opened Descriptor

  function WireType(f: Field): nat {
    match f.ltype
    case Fixed32 => WT_32BIT
    case Fixed64 => WT_64BIT
    case Bool => WT_VARINT
    case Varint => WT_VARINT
    case UVarint => WT_VARINT
    case SVarint => WT_VARINT
    case _ => WT_STRING
  }

  function TagBytes(tag: nat, wire: nat): seq<byte> {
    EncVarint(tag * 8 + wire)
  }

  function FieldTag(f: Field): seq<byte> {
    TagBytes(f.tag, WireType(f))
  }

  /** The low `n` bytes of `v`, least significant first. */
  function LittleEndian(v: nat, n: nat): (bs: seq<byte>)
    ensures |bs| == n
    decreases n
  {
    if n == 0 then [] else [v % 256] + LittleEndian(v / 256, n - 1)
  }

  function Delimited(bs: seq<byte>): seq<byte> {
    EncVarint(|bs|) + bs
  }

  /** A signed number as a 64-bit word. */
  function Word64(n: int): nat
    requires -0x8000_0000_0000_0000 <= n < TWO64
  {
    if n < 0 then n + TWO64 else n
  }

  /** Concatenation that gives up as soon as one side has. */
  function Cat(a: Option<seq<byte>>, b: Option<seq<byte>>): Option<seq<byte>> {
    if a.Some? && b.Some? then Some(a.value + b.value) else None
  }

  // ---- Values ------------------------------------------------------------------------------

  function EncScalar(f: Field, v: Value): Option<seq<byte>>
    requires TypedScalar(f, v)
  {
    match f.ltype
    case Bool => Some(EncVarint(v.n))
    case Varint => Some(EncVarint(Word64(v.n)))
    case UVarint => Some(EncVarint(v.n))
    case SVarint => Some(EncVarint(ZigZag(v.n)))
    case Fixed32 => Some(LittleEndian(v.n, 4))
    case Fixed64 => Some(LittleEndian(v.n, 8))
    case Bytes => if |v.bytes| + 4 > f.dataSize then None else Some(Delimited(v.bytes))
    case String => Some(Delimited(v.bytes))
    case FixedLengthBytes => Some(Delimited(v.bytes))
  }

  function EncValue(f: Field, v: Value): Option<seq<byte>>
    requires WFField(f) && TypedValue(f, v)
    decreases f, 0, 0
  {
    if f.ltype.Submessage? then EncSub(f.sub, v.slots) else EncScalar(f, v)
  }

  /** Items one after the other, each with its own tag or none. */
  function EncItems(f: Field, items: seq<Value>, tagged: bool): Option<seq<byte>>
    requires WFField(f) && TypedItems(f, items)
    decreases f, 1, |items|
  {
    if items == [] then Some([])
    else
      var n := |items| - 1;
      Cat(EncItems(f, items[..n], tagged), Cat(Some(if tagged then FieldTag(f) else []), EncValue(f, items[n])))
  }

  /** `encode_array`: scalars packed into one block, everything else one record per item. */
  function EncArray(f: Field, items: seq<Value>): Option<seq<byte>>
    requires WFField(f) && TypedItems(f, items)
    decreases f, 2, 0
  {
    if items == [] then Some([])
    else if |items| > f.arraySize then None
    else if f.Packable() then
      match EncItems(f, items, false) {
        case None => None
        case Some(block) => Some(TagBytes(f.tag, WT_STRING) + Delimited(block))
      }
    else EncItems(f, items, true)
  }

  // ---- Structs -----------------------------------------------------------------------------

  /** `pb_check_proto3_default_value` on a singular field. */
  predicate ZeroSingular(f: Field, v: Value)
    requires TypedValue(f, v)
    decreases f, 0
  {
    match f.ltype
    case Bytes => v.bytes == []
    case String => v.bytes == []
    case FixedLengthBytes => f.dataSize == 0
    case Submessage => forall j :: 0 <= j < |f.sub| ==> ZeroField(f.sub, v.slots, j)
    case _ => v == Num(0)
  }

  /** `pb_check_proto3_default_value` on field `i` of a struct. */
  predicate ZeroField(fs: seq<Field>, slots: seq<Slot>, i: nat)
    requires TypedMsg(fs, slots) && i < |fs|
    decreases fs, 0
  {
    var f, slot := fs[i], slots[Home(fs, i)];
    assert TypedSlot(fs, Home(fs, i), slot);
    match f.htype
    case Required => false
    case Repeated => f.sizeOffset != 0 && slot.items == []
    case Oneof => slot.which == 0
    case Optional => if f.sizeOffset != 0 then !slot.has else ZeroSingular(f, slot.v)
  }

  /** Is field `i` written at all, as a single record, and with which value? */
  function Present(fs: seq<Field>, slots: seq<Slot>, i: nat): (r: Option<Value>)
    requires WFFields(fs) && TypedMsg(fs, slots) && i < |fs| && !fs[i].htype.Repeated?
    ensures r.Some? ==> TypedValue(fs[i], r.value)
  {
    var f, slot := fs[i], slots[Home(fs, i)];
    assert TypedSlot(fs, Home(fs, i), slot);
    FindTagOf(fs, i);
    assert WFField(f);
    match f.htype
    case Required => Some(slot.v)
    case Optional =>
      if f.sizeOffset != 0 then (if slot.has then Some(slot.v) else None)
      else if ZeroSingular(f, slot.v) then None else Some(slot.v)
    case Oneof => if slot.which == f.tag then Some(slot.v) else None
  }

  /** `encode_basic_field` on field `i`. */
  function EncField(fs: seq<Field>, slots: seq<Slot>, i: nat): Option<seq<byte>>
    requires WFFields(fs) && TypedMsg(fs, slots) && i < |fs|
    decreases fs, 0, 0
  {
    var f := fs[i];
    if f.htype.Repeated? then
      assert TypedSlot(fs, i, slots[i]) && WFField(f);
      EncArray(f, slots[i].items)
    else
      var v := Present(fs, slots, i);
      if v.None? then Some([]) else
      assert WFField(f);
      Cat(Some(FieldTag(f)), EncValue(f, v.value))
  }

  /** The first `k` fields. */
  function EncUpTo(fs: seq<Field>, slots: seq<Slot>, k: nat): Option<seq<byte>>
    requires WFFields(fs) && TypedMsg(fs, slots) && k <= |fs|
    decreases fs, 1, k
  {
    if k == 0 then Some([]) else Cat(EncUpTo(fs, slots, k - 1), EncField(fs, slots, k - 1))
  }

  /** `pb_encode` */
  function EncMsg(fs: seq<Field>, slots: seq<Slot>): Option<seq<byte>>
    requires WFFields(fs) && TypedMsg(fs, slots)
    decreases fs, 2, 0
  {
    EncUpTo(fs, slots, |fs|)
  }

  /** `pb_encode_submessage`. Where a `size_t` counter would wrap around, the model gives up. */
  function EncSub(fs: seq<Field>, slots: seq<Slot>): Option<seq<byte>>
    requires WFFields(fs) && TypedMsg(fs, slots)
    decreases fs, 3, 0
  {
    match EncMsg(fs, slots)
    case None => None
    case Some(b) => if |b| < TWO64 then Some(Delimited(b)) else None
  }

  lemma {:induction false} EncUpToPrefix(fs: seq<Field>, slots: seq<Slot>, k: nat, n: nat)
    requires WFFields(fs) && TypedMsg(fs, slots) && k <= n <= |fs| && EncUpTo(fs, slots, n).Some?
    ensures EncUpTo(fs, slots, k).Some? && |EncUpTo(fs, slots, k).value| <= |EncUpTo(fs, slots, n).value|
    decreases n
  {
    if k < n { EncUpToPrefix(fs, slots, k, n - 1); }
  }

  /** A packed block of fixed-size items has the size the encoder computes without a sizing pass ... */
  lemma {:induction false} FixedItemsSize(f: Field, items: seq<Value>, n: nat)
    requires WFField(f) && TypedItems(f, items)
    requires (f.ltype.Fixed32? && n == 4) || (f.ltype.Fixed64? && n == 8)
    ensures EncItems(f, items, false).Some? && |EncItems(f, items, false).value| == n * |items|
    decreases |items|
  {
    if items != [] { FixedItemsSize(f, items[..|items| - 1], n); }
  }

  /** ... and no packed block is larger than ten bytes per item. */
  lemma {:induction false} PackedItemsSize(f: Field, items: seq<Value>)
    requires WFField(f) && TypedItems(f, items) && f.Packable()
    ensures EncItems(f, items, false).Some? && |EncItems(f, items, false).value| <= 10 * |items|
    decreases |items|
  {
    if items != [] {
      PackedItemsSize(f, items[..|items| - 1]);
      ScalarSize(f, items[|items| - 1]);
    }
  }

  lemma ScalarSize(f: Field, v: Value)
    requires WFField(f) && TypedScalar(f, v) && f.Packable()
    ensures EncScalar(f, v).Some? && 1 <= |EncScalar(f, v).value| <= 10
  {
    hide EncVarint, LittleEndian;
    match f.ltype {
      case Bool => AtMostTenBytes(v.n);
      case Varint => AtMostTenBytes(Word64(v.n));
      case UVarint => AtMostTenBytes(v.n);
      case SVarint =>
        ZigZagValue(v.n);
        AtMostTenBytes(ZigZag(v.n));
      case _ =>
    }
  }

  lemma {:induction false} EncItemsPrefix(f: Field, items: seq<Value>, tagged: bool, k: nat)
    requires WFField(f) && TypedItems(f, items) && k <= |items| && EncItems(f, items, tagged).Some?
    ensures EncItems(f, items[..k], tagged).Some?
    ensures |EncItems(f, items[..k], tagged).value| <= |EncItems(f, items, tagged).value|
    decreases |items|
  {
    if k < |items| {
      var n := |items| - 1;
      EncItemsPrefix(f, items[..n], tagged, k);
      assert items[..n][..k] == items[..k];
    } else {
      assert items[..k] == items;
    }
  }
}
