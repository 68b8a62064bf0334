/** Where a failed decoding leaves the stream. A substream is closed even if its contents were bad, with one exception:
    `decode_static_field` returns without closing a packed block of which something is left unread, so the parent
    stream loses the whole block. */
module Unclosed {
  import opened Bits
  import opened Varint
  import opened PbInput
  import opened Descriptor
  import opened Decoding

  /** How many bytes are left of `bs` when an item of a packed block cannot be decoded from it. */
  function ScalarLeft(f: Field, bs: seq<byte>): nat {
    match f.ltype
    case Bool => Varint32Left(bs)
    case Fixed32 => |bs|
    case Fixed64 => |bs|
    case _ => match DecVarint(bs) { case Fail => VarintLeft(bs) case Done(_, rest) => |rest| }
  }

  /** How many bytes of a packed block are left when its loop stops. */
  function PackedLeft(f: Field, block: seq<byte>, head: seq<Value>, limit: nat): nat
    requires WFField(f) && f.Packable()
    decreases |block|
  {
    if block == [] then 0
    else if |head| >= limit then |block|
    else
      match DecScalar(f, block)
      case Fail => ScalarLeft(f, block)
      case Done(v, rest) => PackedLeft(f, rest, head + [v], limit)
  }

  /** By how much a record of a repeated field makes the stream end earlier ... */
  function ElemsLost(f: Field, wire: nat, bs: seq<byte>, head: seq<Value>): nat
    requires WFField(f) && TypedItems(f, head)
    decreases f, 1, 0
  {
    if wire == WT_STRING && f.Packable() then
      match TakeBlock(bs)
      case Fail => 0
      case Done(block, _) => if PackedLeft(f, block, head, f.arraySize) > 0 then |block| else 0
    else if |head| >= f.arraySize then 0
    else
      InitValueTyped(f);
      ValueLost(f, bs, InitItem(f))
  }

  /** ... and a value, which passes on what its submessage lost ... */
  function ValueLost(f: Field, bs: seq<byte>, base: Value): nat
    requires WFField(f) && TypedValue(f, base)
    decreases f, 0, 0
  {
    if !f.ltype.Submessage? then 0
    else match TakeBlock(bs) { case Fail => 0 case Done(block, _) => NoinitLost(f.sub, block, base.slots) }
  }

  /** ... and any record ... */
  function RecordLost(fs: seq<Field>, tag: nat, wire: nat, bs: seq<byte>, st: DecState): nat
    requires WFFields(fs) && WFState(fs, st)
    decreases fs, 2, 0
  {
    var i := FindTag(fs, tag);
    if i == |fs| then 0
    else
      assert WFField(fs[i]);
      if !fs[i].htype.Repeated? then ValueLost(fs[i], bs, BaseOf(fs, i, st.msg))
      else if !FixedCountReady(fs, i, st) then 0
      else ElemsLost(fs[i], wire, bs, HeadOf(fs, i, st))
  }

  /** ... and the field loop, which stops at the first bad record ... */
  function FieldsLost(fs: seq<Field>, bs: seq<byte>, st: DecState): nat
    requires WFFields(fs) && WFState(fs, st)
    decreases fs, 3, |bs|
  {
    if bs == [] then 0
    else
      match DecTag(bs)
      case Tag(tag, wire, rest) =>
        (match DecRecord(fs, tag, wire, rest, st)
         case Fail => RecordLost(fs, tag, wire, rest, st)
         case Done(st', rest') => FieldsLost(fs, rest', st'))
      case _ => 0
  }

  /** ... and so a whole message. */
  function NoinitLost(fs: seq<Field>, bs: seq<byte>, m: seq<Slot>): nat
    requires WFFields(fs) && TypedMsg(fs, m)
    decreases fs, 4, 0
  {
    FieldsLost(fs, bs, Start(m))
  }

  function MsgLost(fs: seq<Field>, bs: seq<byte>): nat
    requires WFFields(fs)
  {
    InitMsgTyped(fs);
    NoinitLost(fs, bs, InitMsg(fs))
  }

  // ---- Nothing is lost unless decoding fails -----------------------------------------------------

  lemma {:induction false} PackedUsedUp(f: Field, block: seq<byte>, head: seq<Value>, limit: nat)
    requires WFField(f) && f.Packable() && TypedItems(f, head) && limit <= PB_SIZE_MAX
    ensures DecPacked(f, block, head, limit).Some? ==> PackedLeft(f, block, head, limit) == 0
    decreases |block|
  {
    hide DecScalar;
    if block != [] && |head| < limit && DecScalar(f, block).Done? {
      var Done(v, rest) := DecScalar(f, block);
      ScalarProgress(f, block);
      if DecPacked(f, block, head, limit).Some? { PackedUsedUp(f, rest, head + [v], limit); }
    }
  }

  lemma {:induction false} ElemsKept(f: Field, wire: nat, bs: seq<byte>, head: seq<Value>)
    requires WFField(f) && TypedItems(f, head)
    ensures DecElems(f, wire, bs, head).Done? ==> ElemsLost(f, wire, bs, head) == 0
    decreases f, 1, 0
  {
    hide WFField, TypedItems, DecPacked, PackedLeft, TakeBlock, DecValue, ValueLost, InitItem;
    FieldBounds(f);
    if wire == WT_STRING && f.Packable() {
      if TakeBlock(bs).Done? { PackedUsedUp(f, TakeBlock(bs).value, head, f.arraySize); }
    } else {
      InitValueTyped(f);
      ValueKept(f, bs, InitItem(f));
    }
  }

  lemma {:induction false} ValueKept(f: Field, bs: seq<byte>, base: Value)
    requires WFField(f) && TypedValue(f, base)
    ensures DecValue(f, bs, base).Done? ==> ValueLost(f, bs, base) == 0
    decreases f, 0, 0
  {
    hide TakeBlock, DecNoinit, NoinitLost, DecScalar;
    if f.ltype.Submessage? && TakeBlock(bs).Done? { NothingLost(f.sub, TakeBlock(bs).value, base.slots); }
  }

  lemma {:induction false} FieldsKept(fs: seq<Field>, bs: seq<byte>, st: DecState)
    requires WFFields(fs) && WFState(fs, st)
    ensures DecFields(fs, bs, st).Good? ==> FieldsLost(fs, bs, st) == 0
    decreases fs, 3, |bs|
  {
    hide WFFields, WFState, DecRecord, RecordLost, DecTag;
    if bs != [] && DecTag(bs).Tag? {
      var Tag(tag, wire, rest) := DecTag(bs);
      var r := DecRecord(fs, tag, wire, rest, st);
      if r.Done? { FieldsKept(fs, r.rest, r.value); }
    }
  }

  /** A message that decodes keeps the end of the stream; so does one that fails with every packed block closed. */
  lemma {:induction false} NothingLost(fs: seq<Field>, bs: seq<byte>, m: seq<Slot>)
    requires WFFields(fs) && TypedMsg(fs, m)
    ensures DecNoinit(fs, bs, m).Some? ==> NoinitLost(fs, bs, m) == 0
    decreases fs, 4, 0
  {
    hide WFFields, TypedMsg, DecFields, FieldsLost;
    FieldsKept(fs, bs, Start(m));
  }
}
