/** Field descriptors (`pb_field_t`) and the message structs they describe, at the level of values. */
module Descriptor {
  import opened Bits

  datatype LType =
    | Bool | Varint | UVarint | SVarint | Fixed32 | Fixed64
    | Bytes | String | Submessage | Extension | FixedLengthBytes

  datatype HType = Required | Optional | Repeated | Oneof

  datatype AType = Static | Pointer | Callback

  /** One entry of a field table. `sub` is the table a submessage field points to; `dflt` is the default
      value any other field may point to. `sizeOffset` is zero when there is no has-flag or count. */
  datatype Field = Field(
    tag: nat, ltype: LType, htype: HType, atype: AType,
    dataOffset: nat, sizeOffset: int, dataSize: nat, arraySize: nat,
    sub: seq<Field>, dflt: Option<Value>)
  {
    predicate Packable() {
      ltype.Bool? || ltype.Varint? || ltype.UVarint? || ltype.SVarint? || ltype.Fixed32? || ltype.Fixed64?
    }

    predicate FixedCount() {
      htype.Repeated? && sizeOffset == 0
    }
  }

  /** Contents of one field: a number, a byte string, or a nested struct. */
  datatype Value = Num(n: int) | Str(bytes: seq<byte>) | Msg(slots: seq<Slot>)

  /** Storage of one field of a struct. A union keeps its storage in the slot of its first member;
      its other members have none of their own (`Shared`). */
  datatype Slot =
    | One(v: Value) | Opt(has: bool, v: Value) | Many(items: seq<Value>) | Union(which: nat, v: Value) | Shared

  /** Does field `i` continue the union of the field before it? */
  predicate InUnion(fs: seq<Field>, i: nat)
    requires i < |fs|
  {
    i > 0 && fs[i].htype.Oneof? && fs[i - 1].htype.Oneof? && fs[i].dataOffset == PB_SIZE_MAX
  }

  /** The slot that holds the data of field `i`. */
  function Home(fs: seq<Field>, i: nat): (h: nat)
    requires i < |fs|
    ensures h <= i && !InUnion(fs, h)
    ensures fs[i].htype.Oneof? ==> fs[h].htype.Oneof?
    ensures !fs[i].htype.Oneof? ==> h == i
  {
    if InUnion(fs, i) then Home(fs, i - 1) else i
  }

  /** The field that `tag` selects, or `|fs|`. */
  function FindTag(fs: seq<Field>, tag: nat): (i: nat)
    ensures i <= |fs|
    ensures i < |fs| ==> fs[i].tag == tag && !fs[i].ltype.Extension?
    ensures forall j :: 0 <= j < |fs| && j < i ==> fs[j].tag != tag || fs[j].ltype.Extension?
  {
    if fs == [] then 0
    else if fs[0].tag == tag && !fs[0].ltype.Extension? then 0
    else
      assert forall j :: 1 <= j < |fs| ==> fs[j] == fs[1..][j - 1];
      1 + FindTag(fs[1..], tag)
  }

  // ---- Well-formed tables ----------------------------------------------------------------

  predicate IntSize(n: nat) {
    n == 1 || n == 2 || n == 4 || n == 8
  }

  predicate DistinctTags(fs: seq<Field>) {
    forall i, j :: 0 <= i < j < |fs| ==> fs[i].tag != fs[j].tag
  }

  /** A table of static fields, as the generator emits them. */
  predicate WFFields(fs: seq<Field>)
    decreases fs, 1
  {
    DistinctTags(fs) && forall i :: 0 <= i < |fs| ==> WFField(fs[i]) && fs[i].atype.Static?
  }

  /** One entry, however its data are allocated. */
  predicate WFField(f: Field)
    decreases f, 0
  {
    && 1 <= f.tag < 0x2000_0000
    && !f.ltype.Extension?
    && f.dataSize <= PB_SIZE_MAX && f.arraySize <= PB_SIZE_MAX
    && (f.ltype.Varint? || f.ltype.UVarint? || f.ltype.SVarint? ==> IntSize(f.dataSize))
    && (f.htype.Oneof? ==> f.sizeOffset != 0)
    && (if f.ltype.Submessage? then WFFields(f.sub) else f.dflt.Some? ==> TypedScalar(f, f.dflt.value))
  }

  lemma TagsNonzero(fs: seq<Field>)
    requires WFFields(fs)
    ensures forall i :: 0 <= i < |fs| ==> fs[i].tag != 0
  {
    assert forall i :: 0 <= i < |fs| ==> WFField(fs[i]);
  }

  lemma FieldBounds(f: Field)
    requires WFField(f)
    ensures 1 <= f.tag < 0x2000_0000 && f.dataSize <= PB_SIZE_MAX && f.arraySize <= PB_SIZE_MAX
  {}

  lemma FindTagOf(fs: seq<Field>, i: nat)
    requires WFFields(fs) && i < |fs|
    ensures FindTag(fs, fs[i].tag) == i
  {
    assert WFField(fs[i]);
  }

  // ---- Values of the right type ------------------------------------------------------------

  /** Half the number of values of a signed integer of `n` bytes. */
  function HalfRange(n: nat): int {
    if n == 1 then 0x80 else if n == 2 then 0x8000 else if n == 4 then 0x8000_0000 else 0x8000_0000_0000_0000
  }

  predicate TypedScalar(f: Field, v: Value) {
    match f.ltype
    case Bool => v.Num? && 0 <= v.n <= 1
    case Varint => v.Num? && -HalfRange(f.dataSize) <= v.n < HalfRange(f.dataSize)
    case UVarint => v.Num? && 0 <= v.n < 2 * HalfRange(f.dataSize)
    case SVarint => v.Num? && -HalfRange(f.dataSize) <= v.n < HalfRange(f.dataSize)
    case Fixed32 => v.Num? && 0 <= v.n < TWO32
    case Fixed64 => v.Num? && 0 <= v.n < TWO64
    case Bytes => v.Str? && |v.bytes| <= PB_SIZE_MAX
    case String => v.Str? && |v.bytes| <= f.dataSize && forall k :: 0 <= k < |v.bytes| ==> v.bytes[k] != 0
    case FixedLengthBytes => v.Str? && |v.bytes| == f.dataSize
    case _ => false
  }

  predicate TypedValue(f: Field, v: Value)
    decreases f, 0
  {
    if f.ltype.Submessage? then v.Msg? && TypedMsg(f.sub, v.slots) else TypedScalar(f, v)
  }

  predicate TypedMsg(fs: seq<Field>, slots: seq<Slot>)
    decreases fs, 1
  {
    |slots| == |fs| && forall i :: 0 <= i < |fs| ==> TypedSlot(fs, i, slots[i])
  }

  predicate TypedItems(f: Field, items: seq<Value>)
    decreases f, 1
  {
    |items| <= PB_SIZE_MAX && forall k :: 0 <= k < |items| ==> TypedValue(f, items[k])
  }

  predicate TypedSlot(fs: seq<Field>, i: nat, slot: Slot)
    requires i < |fs|
    decreases fs, 0
  {
    var f := fs[i];
    match f.htype
    case Required => slot.One? && TypedValue(f, slot.v)
    case Optional =>
      (if f.sizeOffset != 0 then slot.Opt? else slot.One?) && TypedValue(f, slot.v)
    case Repeated =>
      slot.Many? && TypedItems(f, slot.items) && (f.FixedCount() ==> |slot.items| == f.arraySize)
    case Oneof =>
      if InUnion(fs, i) then slot.Shared?
      else
        slot.Union? &&
        (slot.which == 0 || (Selects(fs, i, slot.which) && TypedValue(fs[FindTag(fs, slot.which)], slot.v)))
  }

  /** `which` names a member of the union stored in slot `home`. */
  predicate Selects(fs: seq<Field>, home: nat, which: nat) {
    var j := FindTag(fs, which);
    j < |fs| && fs[j].htype.Oneof? && Home(fs, j) == home
  }

  // ---- Default values (`pb_message_set_to_defaults`) ---------------------------------------

  function ZeroValue(f: Field): Value {
    match f.ltype
    case Bytes => Str([])
    case String => Str([])
    case FixedLengthBytes => Str(seq(f.dataSize, _ => 0))
    case _ => Num(0)
  }

  function InitValue(f: Field): Value
    decreases f, 0
  {
    if f.ltype.Submessage? then Msg(InitMsg(f.sub))
    else if f.dflt.Some? then f.dflt.value
    else ZeroValue(f)
  }

  function InitMsg(fs: seq<Field>): (m: seq<Slot>)
    ensures |m| == |fs|
    decreases fs, 1
  {
    seq(|fs|, i requires 0 <= i < |fs| => InitSlot(fs, i))
  }

  /** A fresh array element: zeros, or a struct set to its defaults. */
  function InitItem(f: Field): Value
    decreases f, 1
  {
    if f.ltype.Submessage? then InitValue(f) else ZeroValue(f)
  }

  function InitSlot(fs: seq<Field>, i: nat): Slot
    requires i < |fs|
    decreases fs, 0
  {
    var f := fs[i];
    match f.htype
    case Required => One(InitValue(f))
    case Optional => if f.sizeOffset != 0 then Opt(false, InitValue(f)) else One(InitValue(f))
    case Repeated => Many(if f.FixedCount() then seq(f.arraySize, _ => InitItem(f)) else [])
    case Oneof => if InUnion(fs, i) then Shared else Union(0, Num(0))
  }

  lemma {:induction false} InitValueTyped(f: Field)
    requires WFField(f)
    ensures TypedValue(f, InitValue(f)) && TypedValue(f, InitItem(f))
    decreases f, 0
  {
    if f.ltype.Submessage? { InitMsgTyped(f.sub); }
  }

  lemma {:induction false} InitMsgTyped(fs: seq<Field>)
    requires WFFields(fs)
    ensures TypedMsg(fs, InitMsg(fs))
    decreases fs, 1
  {
    forall i | 0 <= i < |fs| ensures TypedSlot(fs, i, InitMsg(fs)[i]) {
      assert WFField(fs[i]);
      InitValueTyped(fs[i]);
    }
  }
}
