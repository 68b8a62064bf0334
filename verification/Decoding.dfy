/** What the decoder makes of a byte string, as a function of the field table, the bytes and the struct
    decoded into. Every result is again a struct of the right type. */
module Decoding {
  import opened Bits
  import opened Varint
  import opened PbInput
  import opened Descriptor
  import opened FieldIterator

  // ---- Scalars -----------------------------------------------------------------------------

  /** A C string ends at its first zero byte. */
  function CString(bs: seq<byte>): (s: seq<byte>)
    ensures s <= bs && forall k :: 0 <= k < |s| ==> s[k] != 0
  {
    if bs == [] || bs[0] == 0 then []
    else
      assert bs == [bs[0]] + bs[1..];
      [bs[0]] + CString(bs[1..])
  }

  function FromLittleEndian(bs: seq<byte>): nat {
    if bs == [] then 0 else bs[0] + 256 * FromLittleEndian(bs[1..])
  }

  /** `pb_dec_varint`, `pb_dec_uvarint`, `pb_dec_svarint`: the number a decoded word stands for in a field
      of the given type and size, unless it does not fit. */
  function NumberOf(f: Field, w: nat): (r: Option<int>)
    requires w < TWO64 && (f.ltype.Varint? || f.ltype.UVarint? || f.ltype.SVarint?) && IntSize(f.dataSize)
    ensures r.Some? ==> TypedScalar(f, Num(r.value))
  {
    var n :=
      if f.ltype.UVarint? then w
      else if f.ltype.SVarint? then UnZigZag(w)
      else if f.dataSize == 8 then ToSigned(w, TWO64)
      else ToSigned(Low32(w), TWO32);
    if TypedScalar(f, Num(n)) then Some(n) else None
  }

  /** The size and the contents of a string or bytes field, when the size passes the field's own check. */
  function SizedBytes(f: Field, bs: seq<byte>): (r: Parse<seq<byte>>)
    ensures r.Done? ==> |r.rest| < |bs| && |r.value| <= PB_SIZE_MAX
    ensures r.Done? && f.ltype.String? ==> |r.value| < f.dataSize
  {
    match DecVarint32(bs)
    case Fail => Fail
    case Done(size, rest) =>
      if size > PB_SIZE_MAX then Fail
      else if f.ltype.Bytes? && size + 4 > f.dataSize then Fail
      else if f.ltype.String? && size + 1 > f.dataSize then Fail
      else if f.ltype.FixedLengthBytes? && size != 0 && size != f.dataSize then Fail
      else TakeBytes(rest, size)
  }

  function DecScalar(f: Field, bs: seq<byte>): (r: Parse<Value>)
    requires WFField(f) && !f.ltype.Submessage?
    ensures r.Done? ==> TypedScalar(f, r.value) && |r.rest| < |bs|
  {
    if f.ltype.Bool? then
      match DecVarint32(bs) { case Fail => Fail case Done(w, rest) => Done(Num(if w != 0 then 1 else 0), rest) }
    else if f.ltype.Fixed32? then
      if |bs| < 4 then Fail else LittleEndianBound(bs[..4]); Done(Num(FromLittleEndian(bs[..4])), bs[4..])
    else if f.ltype.Fixed64? then
      if |bs| < 8 then Fail else LittleEndianBound(bs[..8]); Done(Num(FromLittleEndian(bs[..8])), bs[8..])
    else if f.ltype.Bytes? then
      match SizedBytes(f, bs) { case Fail => Fail case Done(s, rest) => Done(Str(s), rest) }
    else if f.ltype.String? then
      match SizedBytes(f, bs) { case Fail => Fail case Done(s, rest) => Done(Str(CString(s)), rest) }
    else if f.ltype.FixedLengthBytes? then
      match SizedBytes(f, bs)
      case Fail => Fail
      case Done(s, rest) => Done(if s == [] then ZeroValue(f) else Str(s), rest)
    else
      match DecVarint(bs)
      case Fail => Fail
      case Done(w, rest) =>
        match NumberOf(f, w) { case None => Fail case Some(n) => Done(Num(n), rest) }
  }

  lemma ScalarProgress(f: Field, bs: seq<byte>)
    requires WFField(f) && !f.ltype.Submessage? && DecScalar(f, bs).Done?
    ensures TypedValue(f, DecScalar(f, bs).value) && |DecScalar(f, bs).rest| < |bs|
  {}

  lemma {:induction false} LittleEndianBound(bs: seq<byte>)
    ensures FromLittleEndian(bs) < Pow2(8 * |bs|)
    ensures |bs| == 4 ==> FromLittleEndian(bs) < TWO32
    ensures |bs| == 8 ==> FromLittleEndian(bs) < TWO64
  {
    LittleEndianPow(bs);
    Shl32(1); ShlShl(1, 32, 32); Shl32(TWO32);
  }

  lemma {:induction false} LittleEndianPow(bs: seq<byte>)
    ensures FromLittleEndian(bs) < Pow2(8 * |bs|)
  {
    if bs != [] {
      var k := 8 * |bs[1..]|;
      LittleEndianPow(bs[1..]);
      ShlShl(1, k, 7); Shl7(Pow2(k));
      assert Pow2(k + 8) == 2 * Pow2(k + 7);
    }
  }

  // ---- Structs -----------------------------------------------------------------------------

  /** The state of `pb_decode_noinit` between two fields: the struct so far, which required fields have
      been seen, and how far the last fixed-count array has come. */
  datatype DecState = DecState(msg: seq<Slot>, seen: set<nat>, fixedField: Option<nat>, fixedCount: nat)

  /** At most 64 required fields are checked. */
  const MAX_REQUIRED := 64

  function CheckedRequired(fs: seq<Field>): nat {
    Min(MAX_REQUIRED, RequiredBefore(fs, |fs|))
  }

  predicate WFState(fs: seq<Field>, st: DecState) {
    && TypedMsg(fs, st.msg)
    && (forall k :: k in st.seen ==> k < CheckedRequired(fs))
    && (match st.fixedField
        case None => st.fixedCount == 0
        case Some(i) => i < |fs| && fs[i].FixedCount() && st.fixedCount <= fs[i].arraySize)
  }

  function Start(m: seq<Slot>): DecState {
    DecState(m, {}, None, 0)
  }

  lemma StateShape(fs: seq<Field>, st: DecState)
    requires WFState(fs, st)
    ensures TypedMsg(fs, st.msg) && |st.msg| == |fs| && forall k :: k in st.seen ==> k < CheckedRequired(fs)
  {}

  /** The checks after the last field. */
  predicate Complete(fs: seq<Field>, st: DecState)
    requires WFState(fs, st)
  {
    && (st.fixedField.Some? ==> st.fixedCount == fs[st.fixedField.value].arraySize)
    && forall k :: 0 <= k < CheckedRequired(fs) ==> k in st.seen
  }

  /** Outcome of the field loop; `ended` tells whether a zero tag stopped it before the end of input. */
  datatype FieldsResult = Bad | Good(st: DecState, rest: seq<byte>, ended: bool)

  function DecValue(f: Field, bs: seq<byte>, old_: Value): (r: Parse<Value>)
    requires WFField(f) && TypedValue(f, old_)
    ensures r.Done? ==> TypedValue(f, r.value) && |r.rest| < |bs|
    decreases f, 0, 0
  {
    if f.ltype.Submessage? then
      match TakeBlock(bs)
      case Fail => Fail
      case Done(block, rest) =>
        match DecNoinit(f.sub, block, old_.slots)
        case None => Fail
        case Some((m, _)) => Done(Msg(m), rest)
    else DecScalar(f, bs)
  }

  /** A packed block appended to the items so far; more items than `array_size` are an error. */
  function DecPacked(f: Field, block: seq<byte>, head: seq<Value>, limit: nat): (r: Option<seq<Value>>)
    requires WFField(f) && f.Packable() && TypedItems(f, head) && limit <= PB_SIZE_MAX
    ensures r.Some? ==> TypedItems(f, r.value) && (r.value == head || |r.value| <= limit)
    decreases |block|
  {
    if block == [] then Some(head)
    else if |head| >= limit then None
    else
      match DecScalar(f, block)
      case Fail => None
      case Done(v, rest) => DecPacked(f, rest, head + [v], limit)
  }

  /** One record of a repeated field, packed or not. */
  function DecElems(f: Field, wire: nat, bs: seq<byte>, head: seq<Value>): (r: Parse<seq<Value>>)
    requires WFField(f) && TypedItems(f, head)
    ensures r.Done? ==> TypedItems(f, r.value) && |r.rest| < |bs| && (r.value == head || |r.value| <= f.arraySize)
    decreases f, 1, 0
  {
    if wire == WT_STRING && f.Packable() then
      match TakeBlock(bs)
      case Fail => Fail
      case Done(block, rest) =>
        match DecPacked(f, block, head, f.arraySize) { case None => Fail case Some(items) => Done(items, rest) }
    else if |head| >= f.arraySize then Fail
    else
      InitValueTyped(f);
      match DecValue(f, bs, InitItem(f))
      case Fail => Fail
      case Done(v, rest) => Done(head + [v], rest)
  }

  lemma TypedUpdate(fs: seq<Field>, slots: seq<Slot>, h: nat, slot: Slot)
    requires TypedMsg(fs, slots) && h < |fs| && TypedSlot(fs, h, slot)
    ensures TypedMsg(fs, slots[h := slot])
  {}

  /** The array of a repeated field. */
  function ItemsOf(fs: seq<Field>, i: nat, msg: seq<Slot>): (items: seq<Value>)
    requires TypedMsg(fs, msg) && i < |fs| && fs[i].htype.Repeated?
    ensures TypedItems(fs[i], items) && (fs[i].FixedCount() ==> |items| == fs[i].arraySize)
  {
    assert TypedSlot(fs, i, msg[i]);
    msg[i].items
  }

  /** The items already received for a repeated field. */
  function HeadOf(fs: seq<Field>, i: nat, st: DecState): (head: seq<Value>)
    requires WFState(fs, st) && i < |fs| && fs[i].htype.Repeated?
    ensures TypedItems(fs[i], head) && head <= ItemsOf(fs, i, st.msg)
  {
    var items := ItemsOf(fs, i, st.msg);
    if !fs[i].FixedCount() then items
    else if st.fixedField == Some(i) then items[..st.fixedCount] else []
  }

  /** The array once `head` has been received: a fixed-count array keeps what lies behind. */
  function ManySlot(fs: seq<Field>, i: nat, items: seq<Value>, head: seq<Value>): (slot: Slot)
    requires i < |fs| && fs[i].htype.Repeated? && TypedItems(fs[i], items) && TypedItems(fs[i], head)
    requires fs[i].FixedCount() ==> |items| == fs[i].arraySize && |head| <= |items|
    ensures TypedSlot(fs, i, slot)
  {
    Many(if fs[i].FixedCount() then head + items[|head|..] else head)
  }

  /** A fixed-count array may only follow another one that is full. */
  predicate FixedCountReady(fs: seq<Field>, i: nat, st: DecState)
    requires WFState(fs, st) && i < |fs|
  {
    fs[i].FixedCount() && st.fixedField.Some? && st.fixedField != Some(i) ==>
      st.fixedCount == fs[st.fixedField.value].arraySize
  }

  /** `decode_static_field` for a repeated field, with the bookkeeping around it. */
  function DecRepeated(fs: seq<Field>, i: nat, wire: nat, bs: seq<byte>, st: DecState): (r: Parse<DecState>)
    requires WFFields(fs) && WFState(fs, st) && i < |fs| && fs[i].htype.Repeated?
    ensures r.Done? ==> WFState(fs, r.value) && |r.rest| < |bs|
    decreases fs, 0, 0
  {
    if !FixedCountReady(fs, i, st) then Fail
    else
      assert WFField(fs[i]);
      match DecElems(fs[i], wire, bs, HeadOf(fs, i, st))
      case Fail => Fail
      case Done(head, rest) =>
        var slot := ManySlot(fs, i, ItemsOf(fs, i, st.msg), head);
        TypedUpdate(fs, st.msg, i, slot);
        if fs[i].FixedCount() then Done(DecState(st.msg[i := slot], st.seen, Some(i), |head|), rest)
        else Done(st.(msg := st.msg[i := slot]), rest)
  }

  /** The value a singular field or union member is decoded into. */
  function BaseOf(fs: seq<Field>, i: nat, msg: seq<Slot>): (v: Value)
    requires WFFields(fs) && TypedMsg(fs, msg) && i < |fs| && !fs[i].htype.Repeated?
    ensures WFField(fs[i]) && TypedValue(fs[i], v)
  {
    var f, slot := fs[i], msg[Home(fs, i)];
    assert WFField(f) && TypedSlot(fs, Home(fs, i), slot);
    FindTagOf(fs, i);
    InitValueTyped(f);
    if f.htype.Oneof? && slot.which != f.tag then InitValue(f) else slot.v
  }

  /** The slot of a singular field or union after decoding `v`. */
  function FilledSlot(fs: seq<Field>, i: nat, v: Value): (slot: Slot)
    requires WFFields(fs) && i < |fs| && !fs[i].htype.Repeated? && TypedValue(fs[i], v)
    ensures TypedSlot(fs, Home(fs, i), slot)
  {
    FindTagOf(fs, i);
    if fs[i].htype.Oneof? then Union(fs[i].tag, v)
    else if fs[i].htype.Optional? && fs[i].sizeOffset != 0 then Opt(true, v)
    else One(v)
  }

  /** The required fields seen once field `i` has been met. */
  function SeenWith(fs: seq<Field>, i: nat, seen: set<nat>): (r: set<nat>)
    requires i < |fs| && forall k :: k in seen ==> k < CheckedRequired(fs)
    ensures forall k :: k in r ==> k < CheckedRequired(fs)
  {
    var n := RequiredBefore(fs, i);
    if fs[i].htype.Required? && n < MAX_REQUIRED then
      RequiredStrict(fs, i, |fs|);
      seen + {n}
    else seen
  }

  /** One record of field `i`. */
  function DecKnown(fs: seq<Field>, i: nat, wire: nat, bs: seq<byte>, st: DecState): (r: Parse<DecState>)
    requires WFFields(fs) && WFState(fs, st) && i < |fs|
    ensures r.Done? ==> WFState(fs, r.value) && |r.rest| < |bs|
    decreases fs, 1, 0
  {
    if fs[i].htype.Repeated? then DecRepeated(fs, i, wire, bs, st)
    else
      match DecValue(fs[i], bs, BaseOf(fs, i, st.msg))
      case Fail => Fail
      case Done(v, rest) =>
        var h, slot := Home(fs, i), FilledSlot(fs, i, v);
        TypedUpdate(fs, st.msg, h, slot);
        Done(st.(msg := st.msg[h := slot], seen := SeenWith(fs, i, st.seen)), rest)
  }

  /** One record: a field of the table, or something to skip. On an empty table the iterator rests on the
      terminator, which answers to tag 0 and reads as a boolean. */
  function DecRecord(fs: seq<Field>, tag: nat, wire: nat, bs: seq<byte>, st: DecState): (r: Parse<DecState>)
    requires WFFields(fs) && WFState(fs, st)
    ensures r.Done? ==> WFState(fs, r.value) && |r.rest| < |bs|
    decreases fs, 2, 0
  {
    var i := FindTag(fs, tag);
    if i < |fs| then DecKnown(fs, i, wire, bs, st)
    else if fs == [] && tag == 0 then
      match DecVarint32(bs) { case Fail => Fail case Done(_, rest) => Done(st, rest) }
    else
      match SkipPayload(wire, bs) { case Fail => Fail case Done(_, rest) => Done(st, rest) }
  }

  /** The field loop of `pb_decode_noinit`. */
  function DecFields(fs: seq<Field>, bs: seq<byte>, st: DecState): (r: FieldsResult)
    requires WFFields(fs) && WFState(fs, st)
    ensures r.Good? ==> WFState(fs, r.st) && (!r.ended ==> r.rest == [])
    decreases fs, 3, |bs|
  {
    if bs == [] then Good(st, [], false)
    else
      match DecTag(bs)
      case TagFail => Bad
      case TagEof(rest) => Good(st, rest, true)
      case Tag(tag, wire, rest) =>
        match DecRecord(fs, tag, wire, rest, st)
        case Fail => Bad
        case Done(st', rest') => DecFields(fs, rest', st')
  }

  /** `pb_decode_noinit`: the struct afterwards and the unread input. */
  function DecNoinit(fs: seq<Field>, bs: seq<byte>, m: seq<Slot>): (r: Option<(seq<Slot>, seq<byte>)>)
    requires WFFields(fs) && TypedMsg(fs, m)
    ensures r.Some? ==> TypedMsg(fs, r.value.0)
    decreases fs, 4, 0
  {
    match DecFields(fs, bs, Start(m))
    case Bad => None
    case Good(st, rest, _) => if Complete(fs, st) then Some((st.msg, rest)) else None
  }

  /** `pb_decode` */
  function DecMsg(fs: seq<Field>, bs: seq<byte>): Option<(seq<Slot>, seq<byte>)>
    requires WFFields(fs)
  {
    InitMsgTyped(fs);
    DecNoinit(fs, bs, InitMsg(fs))
  }
}
