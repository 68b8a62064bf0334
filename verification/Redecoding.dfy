/** Whatever bytes a message was decoded from, encoding it and decoding again gives the same message. */
module Redecoding {
  import opened Bits
  import opened Varint
  import opened PbInput
  import opened Descriptor
  import opened Encoding
  import opened Decoding
  import opened RoundTrip
  import opened MessageRoundTrip

  // ---- Room in the struct --------------------------------------------------------------------------------------

  /** Strings and default strings of the table leave room for their terminators, and bytes and default bytes for their
      size field. */
  predicate RoomTable(fs: seq<Field>)
    decreases fs, 1
  {
    forall i :: 0 <= i < |fs| ==> RoomField(fs[i])
  }

  predicate RoomField(f: Field)
    decreases f, 0
  {
    && (f.ltype.Submessage? ==> RoomTable(f.sub))
    && (f.ltype.String? ==> f.dataSize > 0 && (f.dflt.Some? && f.dflt.value.Str? ==> |f.dflt.value.bytes| < f.dataSize))
    && (f.ltype.Bytes? ==>
          f.dataSize >= 4 && (f.dflt.Some? && f.dflt.value.Str? ==> |f.dflt.value.bytes| + 4 <= f.dataSize))
  }

  predicate RoomValue(f: Field, v: Value)
    requires TypedValue(f, v)
    decreases f, 0
  {
    if f.ltype.Submessage? then RoomMsg(f.sub, v.slots)
    else
      && (f.ltype.String? ==> |v.bytes| < f.dataSize)
      && (f.ltype.Bytes? ==> |v.bytes| + 4 <= f.dataSize)
  }

  predicate RoomItems(f: Field, items: seq<Value>)
    requires TypedItems(f, items)
    decreases f, 1
  {
    forall k :: 0 <= k < |items| ==> RoomValue(f, items[k])
  }

  predicate RoomSlot(fs: seq<Field>, i: nat, slot: Slot)
    requires i < |fs| && TypedSlot(fs, i, slot)
    decreases fs, 0
  {
    match slot
    case One(v) => RoomValue(fs[i], v)
    case Opt(_, v) => RoomValue(fs[i], v)
    case Many(items) => |items| <= fs[i].arraySize && RoomItems(fs[i], items)
    case Union(which, v) => which != 0 ==> RoomValue(fs[FindTag(fs, which)], v)
    case Shared => true
  }

  predicate RoomMsg(fs: seq<Field>, slots: seq<Slot>)
    requires TypedMsg(fs, slots)
    decreases fs, 1
  {
    forall i :: 0 <= i < |fs| ==> RoomSlot(fs, i, slots[i])
  }

  lemma FieldFacts(fs: seq<Field>, i: nat)
    requires WFFields(fs) && RoomTable(fs) && i < |fs|
    ensures WFField(fs[i]) && RoomField(fs[i]) && FindTag(fs, fs[i].tag) == i && fs[i].tag != 0
  {
    assert WFField(fs[i]);
    FindTagOf(fs, i);
  }

  lemma {:induction false} RoomInit(f: Field)
    requires WFField(f) && RoomField(f)
    ensures TypedValue(f, InitValue(f)) && TypedValue(f, InitItem(f))
    ensures RoomValue(f, InitValue(f)) && RoomValue(f, InitItem(f))
    decreases f, 0
  {
    InitValueTyped(f);
    if f.ltype.Submessage? { RoomInitMsg(f.sub); }
  }

  lemma {:induction false} RoomInitMsg(fs: seq<Field>)
    requires WFFields(fs) && RoomTable(fs)
    ensures TypedMsg(fs, InitMsg(fs)) && RoomMsg(fs, InitMsg(fs))
    decreases fs, 1
  {
    hide WFFields, WFField, RoomField, RoomValue, InitValue, InitItem;
    InitMsgTyped(fs);
    forall i | 0 <= i < |fs| ensures RoomSlot(fs, i, InitMsg(fs)[i]) {
      FieldFacts(fs, i);
      RoomInit(fs[i]);
      assert TypedSlot(fs, i, InitMsg(fs)[i]);
    }
  }

  // ---- Decoding keeps room --------------------------------------------------------------------------------------

  lemma RoomScalar(f: Field, bs: seq<byte>)
    requires WFField(f) && !f.ltype.Submessage? && DecScalar(f, bs).Done?
    ensures TypedValue(f, DecScalar(f, bs).value) && RoomValue(f, DecScalar(f, bs).value)
  {
    if f.ltype.String? {
      var s := SizedBytes(f, bs);
      assert DecScalar(f, bs).value == Str(CString(s.value));
      assert |CString(s.value)| <= |s.value|;
    } else if f.ltype.Bytes? {
      BytesFit(f, bs);
    }
  }

  lemma BytesFit(f: Field, bs: seq<byte>)
    requires f.ltype.Bytes? && SizedBytes(f, bs).Done?
    ensures |SizedBytes(f, bs).value| + 4 <= f.dataSize
  {}

  lemma {:induction false} RoomDecValue(f: Field, bs: seq<byte>, base: Value)
    requires WFField(f) && RoomField(f) && TypedValue(f, base) && DecValue(f, bs, base).Done?
    requires f.ltype.Submessage? ==> RoomValue(f, base)
    ensures TypedValue(f, DecValue(f, bs, base).value) && RoomValue(f, DecValue(f, bs, base).value)
    decreases f, 0, 0
  {
    hide WFFields, TypedMsg, DecScalar, TakeBlock, DecNoinit;
    if f.ltype.Submessage? {
      RoomDecNoinit(f.sub, TakeBlock(bs).value, base.slots);
    } else {
      RoomScalar(f, bs);
    }
  }

  lemma PackableRoom(f: Field, items: seq<Value>)
    requires f.Packable() && TypedItems(f, items)
    ensures RoomItems(f, items)
  {}

  lemma {:induction false} RoomDecElems(f: Field, wire: nat, bs: seq<byte>, head: seq<Value>)
    requires WFField(f) && RoomField(f) && TypedItems(f, head) && RoomItems(f, head)
    requires DecElems(f, wire, bs, head).Done?
    ensures TypedItems(f, DecElems(f, wire, bs, head).value) && RoomItems(f, DecElems(f, wire, bs, head).value)
    ensures |head| <= f.arraySize ==> |DecElems(f, wire, bs, head).value| <= f.arraySize
    decreases f, 1, 0
  {
    hide WFField, RoomField, RoomValue, TypedValue, DecValue, TakeBlock, DecPacked, InitItem;
    var r := DecElems(f, wire, bs, head).value;
    if f.Packable() {
      PackableRoom(f, r);
    } else {
      RoomInit(f);
      RoomDecValue(f, bs, InitItem(f));
    }
  }

  lemma SlotKeepsRoom(fs: seq<Field>, slots: seq<Slot>, h: nat, slot: Slot)
    requires TypedMsg(fs, slots) && RoomMsg(fs, slots) && h < |fs| && TypedSlot(fs, h, slot) && RoomSlot(fs, h, slot)
    ensures TypedMsg(fs, slots[h := slot]) && RoomMsg(fs, slots[h := slot])
  {
    hide TypedSlot, RoomSlot;
    assert forall k :: 0 <= k < |slots| ==> slots[h := slot][k] == if k == h then slot else slots[k];
  }

  lemma RoomOfItems(fs: seq<Field>, i: nat, st: DecState)
    requires WFState(fs, st) && RoomMsg(fs, st.msg) && i < |fs| && fs[i].htype.Repeated?
    ensures RoomItems(fs[i], ItemsOf(fs, i, st.msg)) && RoomItems(fs[i], HeadOf(fs, i, st))
    ensures |HeadOf(fs, i, st)| <= fs[i].arraySize
  {
    hide RoomValue, TypedValue;
    assert TypedSlot(fs, i, st.msg[i]) && RoomSlot(fs, i, st.msg[i]);
  }

  lemma RoomOfMany(f: Field, items: seq<Value>, head: seq<Value>, from: nat)
    requires TypedItems(f, items) && TypedItems(f, head) && RoomItems(f, items) && RoomItems(f, head) && from <= |items|
    requires TypedItems(f, head + items[from..])
    ensures RoomItems(f, head + items[from..])
  {
    hide RoomValue, TypedValue;
    assert forall k :: |head| <= k < |head| + |items| - from ==> (head + items[from..])[k] == items[k - |head| + from];
  }

  lemma {:induction false} RoomDecRepeated(fs: seq<Field>, i: nat, wire: nat, bs: seq<byte>, st: DecState)
    requires WFFields(fs) && RoomTable(fs) && WFState(fs, st) && RoomMsg(fs, st.msg) && i < |fs|
    requires fs[i].htype.Repeated?
    requires DecRepeated(fs, i, wire, bs, st).Done?
    ensures RoomMsg(fs, DecRepeated(fs, i, wire, bs, st).value.msg)
    decreases fs, 1, 0
  {
    hide WFFields, WFField, RoomTable, RoomMsg, RoomItems, DecElems, TypedItems, TypedMsg, HeadOf, ItemsOf;
    FieldFacts(fs, i);
    StateShape(fs, st);
    RoomOfItems(fs, i, st);
    RoomDecElems(fs[i], wire, bs, HeadOf(fs, i, st));
    var head, items := DecElems(fs[i], wire, bs, HeadOf(fs, i, st)).value, ItemsOf(fs, i, st.msg);
    var slot := ManySlot(fs, i, items, head);
    if fs[i].FixedCount() { RoomOfMany(fs[i], items, head, |head|); }
    SlotKeepsRoom(fs, st.msg, i, slot);
  }

  lemma {:induction false} RoomDecRecord(fs: seq<Field>, tag: nat, wire: nat, bs: seq<byte>, st: DecState)
    requires WFFields(fs) && RoomTable(fs) && WFState(fs, st) && RoomMsg(fs, st.msg)
    requires DecRecord(fs, tag, wire, bs, st).Done?
    ensures RoomMsg(fs, DecRecord(fs, tag, wire, bs, st).value.msg)
    decreases fs, 2, 0
  {
    hide WFFields, WFField, RoomTable, RoomValue, TypedValue, DecRepeated, DecValue, SkipPayload, InitValue, SeenWith,
      FindTag;
    var i := FindTag(fs, tag);
    if i < |fs| {
      FieldFacts(fs, i);
      if fs[i].htype.Repeated? {
        RoomDecRepeated(fs, i, wire, bs, st);
      } else {
        var h, base := Home(fs, i), BaseOf(fs, i, st.msg);
        RoomInit(fs[i]);
        assert TypedSlot(fs, h, st.msg[h]) && RoomSlot(fs, h, st.msg[h]);
        RoomDecValue(fs[i], bs, base);
        SlotKeepsRoom(fs, st.msg, h, FilledSlot(fs, i, DecValue(fs[i], bs, base).value));
      }
    }
  }

  lemma {:induction false} RoomDecFields(fs: seq<Field>, bs: seq<byte>, st: DecState)
    requires WFFields(fs) && RoomTable(fs) && WFState(fs, st) && RoomMsg(fs, st.msg) && DecFields(fs, bs, st).Good?
    ensures RoomMsg(fs, DecFields(fs, bs, st).st.msg)
    decreases fs, 3, |bs|
  {
    hide WFFields, RoomTable, RoomMsg, TypedMsg, DecRecord, DecTag;
    if bs != [] && DecTag(bs).Tag? {
      var Tag(tag, wire, rest) := DecTag(bs);
      var r := DecRecord(fs, tag, wire, rest, st);
      RoomDecRecord(fs, tag, wire, rest, st);
      RoomDecFields(fs, r.rest, r.value);
    }
  }

  lemma {:induction false} RoomDecNoinit(fs: seq<Field>, bs: seq<byte>, m: seq<Slot>)
    requires WFFields(fs) && RoomTable(fs) && TypedMsg(fs, m) && RoomMsg(fs, m) && DecNoinit(fs, bs, m).Some?
    ensures RoomMsg(fs, DecNoinit(fs, bs, m).value.0)
    decreases fs, 4, 0
  {
    hide WFFields, RoomTable, RoomMsg, TypedMsg, DecFields;
    RoomDecFields(fs, bs, Start(m));
  }

  // ---- What has room fits -------------------------------------------------------------------------------------

  lemma {:induction false} FitsRoomValue(f: Field, v: Value)
    requires WFField(f) && TypedValue(f, v) && RoomValue(f, v) && EncValue(f, v).Some? && |EncValue(f, v).value| < TWO32
    ensures FitsValue(f, v)
    decreases f, 0, 0
  {
    hide WFFields, TypedMsg, EncMsg, EncScalar, FitsMsg, RoomMsg;
    if f.ltype.Submessage? {
      assert EncValue(f, v) == EncSub(f.sub, v.slots);
      FitsRoomMsg(f.sub, v.slots);
    }
  }

  lemma {:induction false} FitsRoomItems(f: Field, items: seq<Value>, k: nat)
    requires WFField(f) && TypedItems(f, items) && RoomItems(f, items) && k < |items|
    requires EncItems(f, items, true).Some? && |EncItems(f, items, true).value| < TWO32
    ensures FitsItem(f, items, k)
    decreases f, 1, 0
  {
    hide WFField, TypedValue, RoomValue, EncValue, EncItems, FitsValue;
    ItemSplit(f, items, k);
    FitsRoomValue(f, items[k]);
  }

  lemma {:induction false} FitsRoomField(fs: seq<Field>, slots: seq<Slot>, i: nat)
    requires WFFields(fs) && TypedMsg(fs, slots) && RoomMsg(fs, slots) && i < |fs|
    requires EncField(fs, slots, i).Some? && |EncField(fs, slots, i).value| < TWO32
    ensures FitsField(fs, slots, i)
    decreases fs, 0, 0
  {
    hide WFField, TypedValue, RoomValue, EncValue, EncItems, FitsValue, TagBytes, FitsItem, FindTag;
    var f, h := fs[i], Home(fs, i);
    assert WFField(f);
    FindTagOf(fs, i);
    FieldBounds(f);
    assert TypedSlot(fs, i, slots[i]) &&
      TypedSlot(fs, h, slots[h]) && RoomSlot(fs, i, slots[i]) && RoomSlot(fs, h, slots[h]);
    if f.htype.Repeated? {
      var items := slots[i].items;
      if items != [] && !f.Packable() {
        forall k | 0 <= k < |items| ensures FitsItem(f, items, k) { FitsRoomItems(f, items, k); }
      }
    } else if Present(fs, slots, i).Some? {
      FitsRoomValue(f, Present(fs, slots, i).value);
    }
  }

  lemma {:induction false} FitsRoomUpTo(fs: seq<Field>, slots: seq<Slot>, n: nat)
    requires WFFields(fs) && TypedMsg(fs, slots) && RoomMsg(fs, slots) && n <= |fs|
    requires EncUpTo(fs, slots, n).Some? && |EncUpTo(fs, slots, n).value| < TWO32
    ensures FitsUpTo(fs, slots, n)
    decreases fs, 1, n
  {
    hide WFFields, TypedMsg, RoomMsg, EncField, FitsField;
    if n > 0 {
      FitsRoomUpTo(fs, slots, n - 1);
      FitsRoomField(fs, slots, n - 1);
    }
  }

  lemma {:induction false} FitsRoomMsg(fs: seq<Field>, slots: seq<Slot>)
    requires WFFields(fs) && TypedMsg(fs, slots) && RoomMsg(fs, slots)
    requires EncMsg(fs, slots).Some? && |EncMsg(fs, slots).value| < TWO32
    ensures FitsMsg(fs, slots)
    decreases fs, 2, 0
  {
    hide WFFields, TypedMsg, RoomMsg, EncUpTo, FitsUpTo;
    FitsRoomUpTo(fs, slots, |fs|);
  }

  // ---- What has room can be encoded -------------------------------------------------------------------------------

  /** The size of an encoding, as a number without bound. */
  function SizeMsg(fs: seq<Field>, slots: seq<Slot>): nat
    requires WFFields(fs) && TypedMsg(fs, slots)
    decreases fs, 2, 0
  {
    SizeUpTo(fs, slots, |fs|)
  }

  function SizeUpTo(fs: seq<Field>, slots: seq<Slot>, n: nat): nat
    requires WFFields(fs) && TypedMsg(fs, slots) && n <= |fs|
    decreases fs, 1, n
  {
    if n == 0 then 0 else SizeUpTo(fs, slots, n - 1) + SizeField(fs, slots, n - 1)
  }

  function SizeField(fs: seq<Field>, slots: seq<Slot>, i: nat): nat
    requires WFFields(fs) && TypedMsg(fs, slots) && i < |fs|
    decreases fs, 0, 0
  {
    var f := fs[i];
    assert WFField(f);
    if f.htype.Repeated? then SizeArray(f, ItemsOf(fs, i, slots))
    else
      var v := Present(fs, slots, i);
      if v.None? then 0 else |FieldTag(f)| + SizeValue(f, v.value)
  }

  function SizeArray(f: Field, items: seq<Value>): nat
    requires WFField(f) && TypedItems(f, items)
    decreases f, 2, 0
  {
    if items == [] then 0
    else if f.Packable() then
      var n := SizeItems(f, items, false);
      |TagBytes(f.tag, WT_STRING)| + |EncVarint(n)| + n
    else SizeItems(f, items, true)
  }

  function SizeItems(f: Field, items: seq<Value>, tagged: bool): nat
    requires WFField(f) && TypedItems(f, items)
    decreases f, 1, |items|
  {
    if items == [] then 0
    else
      var n := |items| - 1;
      SizeItems(f, items[..n], tagged) + (if tagged then |FieldTag(f)| else 0) + SizeValue(f, items[n])
  }

  function SizeValue(f: Field, v: Value): nat
    requires WFField(f) && TypedValue(f, v)
    decreases f, 0, 0
  {
    if f.ltype.Submessage? then
      var n := SizeMsg(f.sub, v.slots);
      |EncVarint(n)| + n
    else match EncScalar(f, v) { case None => 0 case Some(bs) => |bs| }
  }

  /** The encoding exists and has this size. */
  predicate Encodes(e: Option<seq<byte>>, size: nat) {
    e.Some? && |e.value| == size
  }

  lemma {:induction false} ValueEncodes(f: Field, v: Value)
    requires WFField(f) && TypedValue(f, v) && RoomValue(f, v) && SizeValue(f, v) < TWO64
    ensures Encodes(EncValue(f, v), SizeValue(f, v))
    decreases f, 0, 0
  {
    hide WFFields, TypedMsg, EncMsg, SizeMsg, EncVarint, RoomMsg;
    if f.ltype.Submessage? {
      assert EncValue(f, v) == EncSub(f.sub, v.slots);
      MsgEncodes(f.sub, v.slots);
    }
  }

  lemma {:induction false} ItemsEncode(f: Field, items: seq<Value>, tagged: bool)
    requires WFField(f) && TypedItems(f, items) && RoomItems(f, items) && SizeItems(f, items, tagged) < TWO64
    ensures Encodes(EncItems(f, items, tagged), SizeItems(f, items, tagged))
    decreases f, 1, |items|
  {
    hide WFField, TypedValue, RoomValue, EncValue, SizeValue, FieldTag;
    if items != [] {
      var n := |items| - 1;
      ItemsEncode(f, items[..n], tagged);
      ValueEncodes(f, items[n]);
    }
  }

  lemma {:induction false} ArrayEncodes(f: Field, items: seq<Value>)
    requires WFField(f) && TypedItems(f, items) && RoomItems(f, items) && |items| <= f.arraySize
    requires SizeArray(f, items) < TWO64
    ensures Encodes(EncArray(f, items), SizeArray(f, items))
    decreases f, 2, 0
  {
    hide WFField, TypedItems, RoomItems, EncItems, SizeItems, TagBytes, EncVarint;
    if items != [] { ItemsEncode(f, items, !f.Packable()); }
  }

  lemma {:induction false} FieldEncodes(fs: seq<Field>, slots: seq<Slot>, i: nat)
    requires WFFields(fs) && TypedMsg(fs, slots) && RoomMsg(fs, slots) && i < |fs| && SizeField(fs, slots, i) < TWO64
    ensures Encodes(EncField(fs, slots, i), SizeField(fs, slots, i))
    decreases fs, 0, 0
  {
    hide WFField, TypedValue, RoomValue, EncValue, SizeValue, EncArray, SizeArray, FieldTag, FindTag;
    var f, h := fs[i], Home(fs, i);
    assert WFField(f);
    FindTagOf(fs, i);
    FieldBounds(f);
    assert TypedSlot(fs, i, slots[i]) &&
      TypedSlot(fs, h, slots[h]) && RoomSlot(fs, i, slots[i]) && RoomSlot(fs, h, slots[h]);
    if f.htype.Repeated? {
      ArrayEncodes(f, slots[i].items);
    } else if Present(fs, slots, i).Some? {
      ValueEncodes(f, Present(fs, slots, i).value);
    }
  }

  lemma {:induction false} UpToEncodes(fs: seq<Field>, slots: seq<Slot>, n: nat)
    requires WFFields(fs) && TypedMsg(fs, slots) && RoomMsg(fs, slots) && n <= |fs| && SizeUpTo(fs, slots, n) < TWO64
    ensures Encodes(EncUpTo(fs, slots, n), SizeUpTo(fs, slots, n))
    decreases fs, 1, n
  {
    hide WFFields, TypedMsg, RoomMsg, EncField, SizeField;
    if n > 0 {
      UpToEncodes(fs, slots, n - 1);
      FieldEncodes(fs, slots, n - 1);
    }
  }

  /** A struct whose strings, bytes and arrays have room can be encoded, unless it takes 2^64 bytes or more. */
  lemma {:induction false} MsgEncodes(fs: seq<Field>, slots: seq<Slot>)
    requires WFFields(fs) && TypedMsg(fs, slots) && RoomMsg(fs, slots) && SizeMsg(fs, slots) < TWO64
    ensures Encodes(EncMsg(fs, slots), SizeMsg(fs, slots))
    decreases fs, 2, 0
  {
    hide WFFields, TypedMsg, RoomMsg, EncUpTo, SizeUpTo;
    UpToEncodes(fs, slots, |fs|);
  }

  /** Whatever bytes a message was decoded from, it can be encoded again unless that takes 2^64 bytes or more; and if it
      takes less than 2^32 bytes, decoding them succeeds and gives the message back, up to what its flags hide and the
      zeros that are not written. */
  lemma DecodedComesBack(fs: seq<Field>, bs: seq<byte>)
    requires WFFields(fs) && RoomTable(fs) && DecMsg(fs, bs).Some?
    ensures var m := DecMsg(fs, bs).value.0;
      && TypedMsg(fs, m)
      && (SizeMsg(fs, m) < TWO64 ==> Encodes(EncMsg(fs, m), SizeMsg(fs, m)))
      && (SizeMsg(fs, m) < TWO32 ==> DecMsg(fs, EncMsg(fs, m).value) == Some((CanonMsg(fs, m), [])))
  {
    hide WFFields, RoomTable, TypedMsg, RoomMsg, EncMsg, SizeMsg, DecNoinit, InitMsg, FitsMsg, CanonMsg;
    RoomInitMsg(fs);
    RoomDecNoinit(fs, bs, InitMsg(fs));
    var m := DecMsg(fs, bs).value.0;
    if SizeMsg(fs, m) < TWO64 { MsgEncodes(fs, m); }
    if SizeMsg(fs, m) < TWO32 {
      FitsRoomMsg(fs, m);
      RoundTripExactly(fs, m);
    }
  }
}
