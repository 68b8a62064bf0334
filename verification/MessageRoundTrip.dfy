/** The round trip of whole messages: field by field, the decoder's state follows the encoder. */
module MessageRoundTrip {
  import opened Bits
  import opened Varint
  import opened PbInput
  import opened Descriptor
  import opened FieldIterator
  import opened Encoding
  import opened Decoding
  import opened Merge
  import opened Packed
  import opened RoundTrip

  const TWO63 := 0x8000_0000_0000_0000

  // ---- The decoder's state after the first `k` fields ------------------------------------------

  /** A slot once the first `k` fields have been decoded: a union is settled by the member it selects. */
  function MidSlot(fs: seq<Field>, slots: seq<Slot>, j: nat, k: nat): Slot
    requires TypedMsg(fs, slots) && j < |fs|
  {
    assert TypedSlot(fs, j, slots[j]);
    var settledBy := if slots[j].Union? && slots[j].which != 0 then FindTag(fs, slots[j].which) else j;
    if settledBy < k then CanonSlot(fs, j, slots[j]) else InitSlot(fs, j)
  }

  function MidMsg(fs: seq<Field>, slots: seq<Slot>, k: nat): (m: seq<Slot>)
    requires TypedMsg(fs, slots)
    ensures |m| == |fs| && forall j :: 0 <= j < |fs| ==> m[j] == MidSlot(fs, slots, j, k)
  {
    seq(|fs|, j requires 0 <= j < |fs| => MidSlot(fs, slots, j, k))
  }

  function MidSeen(fs: seq<Field>, k: nat): (seen: set<nat>)
    requires k <= |fs|
    ensures forall n :: n in seen ==> n < CheckedRequired(fs)
  {
    if k == 0 then {} else SeenWith(fs, k - 1, MidSeen(fs, k - 1))
  }

  /** The last fixed-count array that was written. */
  function MidFixed(fs: seq<Field>, k: nat): (r: Option<nat>)
    requires k <= |fs|
    ensures r.Some? ==> r.value < k && fs[r.value].FixedCount()
  {
    if k == 0 then None
    else if fs[k - 1].FixedCount() && fs[k - 1].arraySize > 0 then Some(k - 1)
    else MidFixed(fs, k - 1)
  }

  function Mid(fs: seq<Field>, slots: seq<Slot>, k: nat): DecState
    requires TypedMsg(fs, slots) && k <= |fs|
  {
    var fixedField := MidFixed(fs, k);
    var fixedCount := if fixedField.Some? then fs[fixedField.value].arraySize else 0;
    DecState(MidMsg(fs, slots, k), MidSeen(fs, k), fixedField, fixedCount)
  }

  lemma MidWF(fs: seq<Field>, slots: seq<Slot>, k: nat)
    requires WFFields(fs) && TypedMsg(fs, slots) && k <= |fs|
    ensures WFState(fs, Mid(fs, slots, k))
  {
    InitMsgTyped(fs);
    forall j | 0 <= j < |fs| ensures TypedSlot(fs, j, MidSlot(fs, slots, j, k)) {
      CanonSlotTyped(fs, j, slots[j]);
      assert TypedSlot(fs, j, InitMsg(fs)[j]);
    }
  }

  lemma MidStart(fs: seq<Field>, slots: seq<Slot>)
    requires WFFields(fs) && TypedMsg(fs, slots)
    ensures Mid(fs, slots, 0) == Start(InitMsg(fs))
  {
    assert MidMsg(fs, slots, 0) == InitMsg(fs);
  }

  lemma MidEnd(fs: seq<Field>, slots: seq<Slot>)
    requires WFFields(fs) && TypedMsg(fs, slots)
    ensures WFState(fs, Mid(fs, slots, |fs|)) && Complete(fs, Mid(fs, slots, |fs|))
    ensures Mid(fs, slots, |fs|).msg == CanonMsg(fs, slots)
  {
    MidWF(fs, slots, |fs|);
    forall j | 0 <= j < |fs| ensures MidMsg(fs, slots, |fs|)[j] == CanonMsg(fs, slots)[j] {
      assert TypedSlot(fs, j, slots[j]);
    }
    MidSeenAll(fs, |fs|);
  }

  lemma {:induction false} MidSeenAll(fs: seq<Field>, k: nat)
    requires k <= |fs|
    ensures forall n :: 0 <= n < RequiredBefore(fs, k) && n < MAX_REQUIRED ==> n in MidSeen(fs, k)
  {
    if k > 0 { MidSeenAll(fs, k - 1); }
  }

  // ---- One field -------------------------------------------------------------------------------

  /** The decoder's state after a record of the singular field or union member `i`. */
  function Filled(fs: seq<Field>, i: nat, st: DecState, v: Value): (st': DecState)
    requires WFFields(fs) && WFState(fs, st) && i < |fs| && !fs[i].htype.Repeated? && TypedValue(fs[i], v)
    ensures WFState(fs, st')
  {
    var h, slot := Home(fs, i), FilledSlot(fs, i, v);
    TypedUpdate(fs, st.msg, h, slot);
    st.(msg := st.msg[h := slot], seen := SeenWith(fs, i, st.seen))
  }

  lemma SingleRecord(fs: seq<Field>, i: nat, body: seq<byte>, rest: seq<byte>, st: DecState)
    requires WFFields(fs) && WFState(fs, st) && i < |fs| && !fs[i].htype.Repeated? && WFField(fs[i])
    requires var r := DecValue(fs[i], body + rest, BaseOf(fs, i, st.msg)); r.Done? ==> r.rest == rest
    ensures var r := DecValue(fs[i], body + rest, BaseOf(fs, i, st.msg));
      DecFields(fs, FieldTag(fs[i]) + body + rest, st) ==
        if r.Fail? then Bad else DecFields(fs, rest, Filled(fs, i, st, r.value))
  {
    hide DecValue, BaseOf, TypedMsg, FilledSlot, TagBytes, DecTag, SeenWith;
    var f := fs[i];
    var all := FieldTag(f) + body + rest;
    assert all == FieldTag(f) + (body + rest);
    TagRoundTrip(f.tag, WireType(f), body + rest);
    TagNotEmpty(f.tag, WireType(f));
    FindTagOf(fs, i);
    assert DecRecord(fs, f.tag, WireType(f), body + rest, st) == DecKnown(fs, i, WireType(f), body + rest, st);
  }

  /** A field that is not written leaves the state as it is. */
  lemma MidAbsent(fs: seq<Field>, slots: seq<Slot>, i: nat)
    requires WFFields(fs) && TypedMsg(fs, slots) && i < |fs|
    requires !fs[i].htype.Repeated? && Present(fs, slots, i).None?
    ensures Mid(fs, slots, i + 1) == Mid(fs, slots, i)
  {
    hide CanonValue, InitValue, TypedValue;
    var f := fs[i];
    assert WFField(f) && TypedSlot(fs, i, slots[i]);
    FindTagOf(fs, i);
    forall j | 0 <= j < |fs| ensures MidSlot(fs, slots, j, i + 1) == MidSlot(fs, slots, j, i) {
      SettledElsewhere(fs, slots, i, j);
    }
    assert MidMsg(fs, slots, i + 1) == MidMsg(fs, slots, i);
  }

  /** The slot that field `i` does not fill is not settled by it. */
  lemma SettledElsewhere(fs: seq<Field>, slots: seq<Slot>, i: nat, j: nat)
    requires WFFields(fs) && TypedMsg(fs, slots) && i < |fs| && j < |fs|
    requires fs[i].htype.Oneof? ==>
      slots[Home(fs, i)].Union? && (slots[Home(fs, i)].which != fs[i].tag || Home(fs, i) != j)
    requires !fs[i].htype.Oneof? ==> i != j || CanonSlot(fs, i, slots[i]) == InitSlot(fs, i)
    ensures MidSlot(fs, slots, j, i + 1) == MidSlot(fs, slots, j, i)
  {
    assert TypedSlot(fs, j, slots[j]);
    FindTagOf(fs, i);
  }

  lemma MidPresent(fs: seq<Field>, slots: seq<Slot>, i: nat, v: Value)
    requires WFFields(fs) && TypedMsg(fs, slots) && i < |fs|
    requires !fs[i].htype.Repeated? && Present(fs, slots, i) == Some(v)
    ensures WFState(fs, Mid(fs, slots, i)) && TypedValue(fs[i], CanonValue(fs[i], v))
    ensures BaseOf(fs, i, Mid(fs, slots, i).msg) == InitValue(fs[i])
    ensures Filled(fs, i, Mid(fs, slots, i), CanonValue(fs[i], v)) == Mid(fs, slots, i + 1)
  {
    hide CanonValue, InitValue, TypedValue, WFState;
    var f, h := fs[i], Home(fs, i);
    assert WFField(f) && TypedSlot(fs, h, slots[h]) && TypedSlot(fs, i, slots[i]);
    FindTagOf(fs, i);
    MidWF(fs, slots, i);
    CanonValueTyped(f, v);
    MidFilled(fs, slots, i, v);
    forall j | 0 <= j < |fs| && j != h ensures MidSlot(fs, slots, j, i + 1) == MidSlot(fs, slots, j, i) {
      SettledElsewhere(fs, slots, i, j);
    }
    assert MidMsg(fs, slots, i + 1) == MidMsg(fs, slots, i)[h := FilledSlot(fs, i, CanonValue(f, v))];
  }

  lemma MidFilled(fs: seq<Field>, slots: seq<Slot>, i: nat, v: Value)
    requires WFFields(fs) && TypedMsg(fs, slots) && i < |fs| && WFState(fs, Mid(fs, slots, i))
    requires !fs[i].htype.Repeated? && Present(fs, slots, i) == Some(v) && TypedValue(fs[i], CanonValue(fs[i], v))
    ensures BaseOf(fs, i, Mid(fs, slots, i).msg) == InitValue(fs[i])
    ensures MidSlot(fs, slots, Home(fs, i), i + 1) == FilledSlot(fs, i, CanonValue(fs[i], v))
  {
    hide CanonValue, InitValue, TypedValue, WFState;
    var f, h := fs[i], Home(fs, i);
    assert WFField(f) && TypedSlot(fs, h, slots[h]);
    FindTagOf(fs, i);
  }

  lemma MidRepeated(fs: seq<Field>, slots: seq<Slot>, i: nat)
    requires WFFields(fs) && TypedMsg(fs, slots) && i < |fs| && fs[i].htype.Repeated?
    ensures WFState(fs, Mid(fs, slots, i))
    ensures var items := ItemsOf(fs, i, slots);
      && (items == [] ==> Mid(fs, slots, i + 1) == Mid(fs, slots, i))
      && (items != [] ==> HeadOf(fs, i, Mid(fs, slots, i)) == [] && FixedCountReady(fs, i, Mid(fs, slots, i)))
      && TypedItems(fs[i], CanonItems(fs[i], items))
      && (items != [] ==> Received(fs, i, Mid(fs, slots, i), CanonItems(fs[i], items)) == Mid(fs, slots, i + 1))
  {
    hide CanonValue, InitItem, TypedValue;
    var f, items := fs[i], ItemsOf(fs, i, slots);
    assert WFField(f) && TypedSlot(fs, i, slots[i]);
    MidWF(fs, slots, i);
    CanonItemsTyped(f, items);
    forall j | 0 <= j < |fs| && j != i ensures MidSlot(fs, slots, j, i + 1) == MidSlot(fs, slots, j, i) {
      SettledElsewhere(fs, slots, i, j);
    }
    var st := Mid(fs, slots, i);
    assert st.msg[i] == InitSlot(fs, i) && MidMsg(fs, slots, i + 1)[i] == Many(CanonItems(f, items));
    if items == [] {
      assert MidMsg(fs, slots, i + 1) == MidMsg(fs, slots, i);
    } else {
      var slot := ManySlot(fs, i, ItemsOf(fs, i, st.msg), CanonItems(f, items));
      assert slot == Many(CanonItems(f, items));
      assert MidMsg(fs, slots, i + 1) == MidMsg(fs, slots, i)[i := slot];
    }
  }

  // ---- Arrays ----------------------------------------------------------------------------------

  /** The encodings of the items of a packed array, one by one. */
  function Chunks(f: Field, items: seq<Value>): (r: seq<seq<byte>>)
    requires WFField(f) && f.Packable() && TypedItems(f, items)
    ensures |r| == |items|
  {
    seq(|items|, k requires 0 <= k < |items| => ChunkOf(f, items[k]))
  }

  function ChunkOf(f: Field, v: Value): (bs: seq<byte>)
    requires WFField(f) && f.Packable() && TypedValue(f, v)
    ensures EncValue(f, v) == Some(bs) && DecScalar(f, bs) == Done(v, [])
  {
    ScalarSize(f, v);
    ScalarRoundTrip(f, v, []);
    assert EncScalar(f, v).value + [] == EncScalar(f, v).value;
    EncScalar(f, v).value
  }

  lemma {:induction false} FlatSnoc(chunks: seq<seq<byte>>, c: seq<byte>)
    ensures Flat(chunks + [c]) == Flat(chunks) + c
  {
    if chunks == [] {
      assert [] + [c] == [c];
      assert Flat([c]) == c + Flat([]);
    } else {
      FlatSnoc(chunks[1..], c);
      assert (chunks + [c])[1..] == chunks[1..] + [c];
    }
  }

  lemma {:induction false} FlatIsEncItems(f: Field, items: seq<Value>)
    requires WFField(f) && f.Packable() && TypedItems(f, items)
    ensures EncItems(f, items, false) == Some(Flat(Chunks(f, items)))
    decreases |items|
  {
    hide WFField, TypedValue, EncValue, ChunkOf;
    if items != [] {
      var n := |items| - 1;
      FlatIsEncItems(f, items[..n]);
      ChunkIsEncoding(f, items[n]);
      assert Chunks(f, items) == Chunks(f, items[..n]) + [ChunkOf(f, items[n])];
      FlatSnoc(Chunks(f, items[..n]), ChunkOf(f, items[n]));
      assert [] + ChunkOf(f, items[n]) == ChunkOf(f, items[n]);
    }
  }

  lemma ChunkIsEncoding(f: Field, v: Value)
    requires WFField(f) && f.Packable() && TypedValue(f, v)
    ensures EncValue(f, v) == Some(ChunkOf(f, v)) && DecScalar(f, ChunkOf(f, v)) == Done(v, [])
  {}

  lemma PackedCanon(f: Field, items: seq<Value>)
    requires WFField(f) && f.Packable() && TypedItems(f, items)
    ensures CanonItems(f, items) == items && Spells(f, Chunks(f, items), items)
  {
    hide WFField, DecScalar, ChunkOf;
    forall k | 0 <= k < |items|
      ensures CanonItems(f, items)[k] == items[k] && DecScalar(f, Chunks(f, items)[k]) == Done(items[k], [])
    {
      ChunkIsEncoding(f, items[k]);
    }
  }

  /** A packed array at the front of the input. */
  lemma PackedFieldRoundTrip(fs: seq<Field>, i: nat, items: seq<Value>, rest: seq<byte>, st: DecState)
    requires WFFields(fs) && WFState(fs, st) && i < |fs| && fs[i].htype.Repeated? && WFField(fs[i]) && fs[i].Packable()
    requires TypedItems(fs[i], items) && 0 < |items| <= fs[i].arraySize
    requires HeadOf(fs, i, st) == [] && FixedCountReady(fs, i, st)
    requires EncArray(fs[i], items).Some? && |EncArray(fs[i], items).value| < TWO63
    ensures DecFields(fs, EncArray(fs[i], items).value + rest, st) ==
      if |EncItems(fs[i], items, false).value| < TWO32 then DecFields(fs, rest, Received(fs, i, st, items)) else Bad
  {
    hide WFFields, WFField, WFState, TypedItems, HeadOf, FixedCountReady, Received, DecFields, TagBytes, EncItems,
      DecPacked, TakeBlock, Chunks;
    var f := fs[i];
    FlatIsEncItems(f, items);
    PackedCanon(f, items);
    FieldBounds(f);
    EmptyTyped(f);
    var block := EncItems(f, items, false).value;
    DecPackedAll(f, Chunks(f, items), items, [], f.arraySize);
    assert [] + items == items;
    BlockRead(block, rest);
    RepeatedRecord(fs, i, WT_STRING, Delimited(block), rest, st);
    assert EncArray(f, items).value == TagBytes(f.tag, WT_STRING) + Delimited(block);
  }

  lemma EmptyTyped(f: Field)
    ensures TypedItems(f, [])
  {}

  lemma BlockRead(block: seq<byte>, rest: seq<byte>)
    requires |block| < TWO63
    ensures TakeBlock(Delimited(block) + rest) == if |block| < TWO32 then Done(block, rest) else Fail
  {
    hide DecVarint32, EncVarint;
    if |block| < TWO32 {
      BlockRoundTrip(block, rest);
    } else {
      Varint32RoundTrip(|block|, block + rest);
      assert Delimited(block) + rest == EncVarint(|block|) + (block + rest);
    }
  }

  // ---- Values, items, fields, messages -----------------------------------------------------------

  lemma {:induction false} ValueRoundTrip(f: Field, v: Value, base: Value, rest: seq<byte>)
    requires WFField(f) && TypedValue(f, v) && TypedValue(f, base)
    requires f.ltype.Submessage? ==> base == InitValue(f)
    requires EncValue(f, v).Some? && |EncValue(f, v).value| < TWO63
    ensures DecValue(f, EncValue(f, v).value + rest, base) ==
      if FitsValue(f, v) then Done(CanonValue(f, v), rest) else Fail
    decreases f, 0, 0
  {
    hide EncMsg, DecNoinit, DecScalar, EncScalar, TakeBlock, FitsMsg;
    if f.ltype.Submessage? {
      assert EncValue(f, v) == EncSub(f.sub, v.slots);
      var body := EncMsg(f.sub, v.slots).value;
      BlockRead(body, rest);
      MsgRoundTrip(f.sub, v.slots);
    } else {
      ScalarRoundTrip(f, v, rest);
    }
  }

  /** The decoder's state after the first `n` items, one record each. */
  function AfterItems(fs: seq<Field>, i: nat, st: DecState, items: seq<Value>, n: nat): (st': DecState)
    requires WFState(fs, st) && i < |fs| && fs[i].htype.Repeated? && TypedItems(fs[i], items)
    requires n <= |items| <= fs[i].arraySize
    ensures WFState(fs, st')
  {
    if n == 0 then st else
    assert TypedItems(fs[i], items[..n]);
    Received(fs, i, st, items[..n])
  }

  lemma AfterItemsHead(fs: seq<Field>, i: nat, st: DecState, items: seq<Value>, n: nat)
    requires WFState(fs, st) && i < |fs| && fs[i].htype.Repeated? && TypedItems(fs[i], items)
    requires n < |items| <= fs[i].arraySize && HeadOf(fs, i, st) == [] && FixedCountReady(fs, i, st)
    ensures var st' := AfterItems(fs, i, st, items, n);
      && HeadOf(fs, i, st') == items[..n] && FixedCountReady(fs, i, st') && TypedItems(fs[i], items[..n + 1])
      && Received(fs, i, st', items[..n + 1]) == AfterItems(fs, i, st, items, n + 1)
  {
    hide TypedValue, WFState, HeadOf, ItemsOf, ManySlot;
    assert TypedItems(fs[i], items[..n + 1]) && TypedItems(fs[i], items[..n]);
    if n == 0 {
      assert items[..0] == [];
    } else {
      ReceivedTwice(fs, i, st, items[..n], items[..n + 1]);
    }
  }

  predicate FitsItems(f: Field, items: seq<Value>, n: nat)
    requires WFField(f) && TypedItems(f, items) && EncItems(f, items, true).Some? && n <= |items|
  {
    forall k :: 0 <= k < n ==> FitsItem(f, items, k)
  }

  lemma {:induction false} ItemsRoundTrip(
    fs: seq<Field>, i: nat, items: seq<Value>, n: nat, rest: seq<byte>, st: DecState)
    requires WFFields(fs) && WFState(fs, st) && i < |fs| && fs[i].htype.Repeated? && WFField(fs[i]) && !fs[i].Packable()
    requires TypedItems(fs[i], items) && n <= |items| <= fs[i].arraySize
    requires HeadOf(fs, i, st) == [] && FixedCountReady(fs, i, st)
    requires EncItems(fs[i], items, true).Some? && |EncItems(fs[i], items, true).value| < TWO63
    requires TypedItems(fs[i], items[..n]) && EncItems(fs[i], items[..n], true).Some?
    requires TypedItems(fs[i], CanonItems(fs[i], items))
    ensures DecFields(fs, EncItems(fs[i], items[..n], true).value + rest, st) ==
      if FitsItems(fs[i], items, n) then DecFields(fs, rest, AfterItems(fs, i, st, CanonItems(fs[i], items), n))
      else Bad
    decreases fs[i], 1, n
  {
    hide WFFields, WFField, WFState, HeadOf, FixedCountReady, Received, DecFields, TagBytes, EncItems,
      EncValue, DecValue, FitsValue, TypedItems, CanonItems, AfterItems;
    var f, canon := fs[i], CanonItems(fs[i], items);
    if n == 0 {
      NoneEncoded(f, items);
      assert [] + rest == rest;
      NoItemsReceived(fs, i, st, canon);
    } else {
      var k := n - 1;
      ItemSplit(f, items, k);
      var before, tag, body := EncItems(f, items[..k], true).value, FieldTag(f), EncValue(f, items[k]).value;
      var more := tag + body + rest;
      assert before + (tag + body) + rest == before + more;
      ItemsRoundTrip(fs, i, items, k, more, st);
      if FitsItems(f, items, k) {
        AfterItemsHead(fs, i, st, canon, k);
        var st' := AfterItems(fs, i, st, canon, k);
        InitValueTyped(f);
        ItemBase(f);
        ValueRoundTrip(f, items[k], InitItem(f), rest);
        CanonItemAt(f, items, k);
        RepeatedRecord(fs, i, WireType(f), body, rest, st');
      }
    }
  }

  lemma NoneEncoded(f: Field, items: seq<Value>)
    requires WFField(f) && TypedItems(f, items[..0])
    ensures EncItems(f, items[..0], true) == Some([])
  {}

  lemma NoItemsReceived(fs: seq<Field>, i: nat, st: DecState, items: seq<Value>)
    requires WFState(fs, st) && i < |fs| && fs[i].htype.Repeated? && TypedItems(fs[i], items)
    requires |items| <= fs[i].arraySize
    ensures AfterItems(fs, i, st, items, 0) == st
  {}

  lemma ItemBase(f: Field)
    ensures f.ltype.Submessage? ==> InitItem(f) == InitValue(f)
    ensures !f.Packable() ==> WireType(f) == WT_STRING
  {}

  lemma CanonItemAt(f: Field, items: seq<Value>, k: nat)
    requires TypedItems(f, items) && k < |items|
    ensures TypedValue(f, items[k]) && CanonItems(f, items)[..k + 1] ==
      CanonItems(f, items)[..k] + [CanonValue(f, items[k])]
  {}

  lemma ItemSplit(f: Field, items: seq<Value>, k: nat)
    requires WFField(f) && TypedItems(f, items) && k < |items| && EncItems(f, items, true).Some?
    ensures TypedItems(f, items[..k]) &&
      TypedItems(f, items[..k + 1]) && TypedValue(f, items[k]) && EncValue(f, items[k]).Some?
    ensures EncItems(f, items[..k], true).Some? && EncItems(f, items[..k + 1], true).Some?
    ensures EncItems(f, items[..k + 1], true).value ==
      EncItems(f, items[..k], true).value + (FieldTag(f) + EncValue(f, items[k]).value)
    ensures |EncValue(f, items[k]).value| <= |EncItems(f, items, true).value|
    ensures FitsItem(f, items, k) == FitsValue(f, items[k])
  {
    hide WFField, TypedValue, EncValue, FitsValue, TagBytes;
    EncItemsPrefix(f, items, true, k);
    EncItemsPrefix(f, items, true, k + 1);
    assert items[..k + 1][..k] == items[..k];
    ItemEncodes(f, items, k);
  }

  lemma {:induction false} FieldRoundTrip(fs: seq<Field>, slots: seq<Slot>, i: nat, rest: seq<byte>)
    requires WFFields(fs) && TypedMsg(fs, slots) && i < |fs|
    requires EncField(fs, slots, i).Some? && |EncField(fs, slots, i).value| < TWO63
    requires WFState(fs, Mid(fs, slots, i)) && WFState(fs, Mid(fs, slots, i + 1))
    ensures DecFields(fs, EncField(fs, slots, i).value + rest, Mid(fs, slots, i)) ==
      if FitsField(fs, slots, i) then DecFields(fs, rest, Mid(fs, slots, i + 1)) else Bad
    decreases fs, 0, 0
  {
    hide TypedMsg, WFState, DecFields, Mid, EncValue, DecValue, TagBytes, EncItems, FitsValue, CanonValue, CanonItems,
      Present;
    var f, st := fs[i], Mid(fs, slots, i);
    assert WFField(f);
    if f.htype.Repeated? {
      MidRepeated(fs, slots, i);
      RepeatedRoundTrip(fs, slots, i, rest);
    } else {
      var v := Present(fs, slots, i);
      if v.None? {
        MidAbsent(fs, slots, i);
        assert [] + rest == rest;
      } else {
        MidPresent(fs, slots, i, v.value);
        InitValueTyped(f);
        ValueRoundTrip(f, v.value, InitValue(f), rest);
        var body := EncValue(f, v.value).value;
        SingleRecord(fs, i, body, rest, st);
        assert EncField(fs, slots, i).value + rest == FieldTag(f) + body + rest;
      }
    }
  }

  lemma {:induction false} RepeatedRoundTrip(fs: seq<Field>, slots: seq<Slot>, i: nat, rest: seq<byte>)
    requires WFFields(fs) && TypedMsg(fs, slots) && i < |fs| && fs[i].htype.Repeated?
    requires EncField(fs, slots, i).Some? && |EncField(fs, slots, i).value| < TWO63
    requires WFState(fs, Mid(fs, slots, i)) && WFState(fs, Mid(fs, slots, i + 1))
    ensures DecFields(fs, EncField(fs, slots, i).value + rest, Mid(fs, slots, i)) ==
      if FitsField(fs, slots, i) then DecFields(fs, rest, Mid(fs, slots, i + 1)) else Bad
    decreases fs[i], 2, 0
  {
    hide WFState, DecFields, Mid, EncItems, FitsItem, CanonItems, HeadOf, FixedCountReady, Received;
    var f, items, st := fs[i], ItemsOf(fs, i, slots), Mid(fs, slots, i);
    assert WFField(f);
    assert EncField(fs, slots, i) == EncArray(f, items);
    MidRepeated(fs, slots, i);
    if items == [] {
      assert [] + rest == rest;
    } else if f.Packable() {
      PackedCanon(f, items);
      PackedFieldRoundTrip(fs, i, items, rest, st);
    } else {
      assert items[..|items|] == items;
      ItemsRoundTrip(fs, i, items, |items|, rest, st);
      AllItems(fs, i, st, CanonItems(f, items));
    }
  }

  lemma AllItems(fs: seq<Field>, i: nat, st: DecState, items: seq<Value>)
    requires WFState(fs, st) && i < |fs| && fs[i].htype.Repeated? && TypedItems(fs[i], items)
    requires 0 < |items| <= fs[i].arraySize
    ensures AfterItems(fs, i, st, items, |items|) == Received(fs, i, st, items)
  {
    assert items[..|items|] == items;
  }

  lemma {:induction false} FieldsRoundTrip(fs: seq<Field>, slots: seq<Slot>, n: nat, rest: seq<byte>)
    requires WFFields(fs) && TypedMsg(fs, slots) && n <= |fs|
    requires EncUpTo(fs, slots, n).Some? && |EncUpTo(fs, slots, n).value| < TWO63
    requires WFState(fs, Mid(fs, slots, 0)) && WFState(fs, Mid(fs, slots, n))
    ensures DecFields(fs, EncUpTo(fs, slots, n).value + rest, Mid(fs, slots, 0)) ==
      if FitsUpTo(fs, slots, n) then DecFields(fs, rest, Mid(fs, slots, n)) else Bad
    decreases fs, 1, n
  {
    hide WFFields, TypedMsg, WFState, DecFields, Mid, EncField, FitsField;
    if n == 0 {
      assert [] + rest == rest;
    } else {
      var a, b := EncUpTo(fs, slots, n - 1).value, EncField(fs, slots, n - 1).value;
      assert a + b + rest == a + (b + rest);
      MidWF(fs, slots, n - 1);
      FieldsRoundTrip(fs, slots, n - 1, b + rest);
      if FitsUpTo(fs, slots, n - 1) {
        FieldRoundTrip(fs, slots, n - 1, rest);
      }
    }
  }

  lemma {:induction false} MsgRoundTrip(fs: seq<Field>, slots: seq<Slot>)
    requires WFFields(fs) && TypedMsg(fs, slots)
    requires EncMsg(fs, slots).Some? && |EncMsg(fs, slots).value| < TWO63
    ensures TypedMsg(fs, InitMsg(fs))
    ensures DecNoinit(fs, EncMsg(fs, slots).value, InitMsg(fs)) ==
      if FitsMsg(fs, slots) then Some((CanonMsg(fs, slots), [])) else None
    decreases fs, 2, 0
  {
    hide WFFields, TypedMsg, Mid, EncUpTo, FitsUpTo, CanonMsg, InitMsg;
    var bs := EncMsg(fs, slots).value;
    MidWF(fs, slots, 0);
    MidStart(fs, slots);
    MidEnd(fs, slots);
    InitMsgTyped(fs);
    FieldsRoundTrip(fs, slots, |fs|, []);
    assert bs + [] == bs;
  }

  /** For every well-formed table and every struct that encodes: decoding the encoding succeeds if and only
      if every string leaves room for its terminator and every length prefix fits 32 bits; and then it gives
      back the struct, up to hidden values, and reads all of the input. */
  lemma RoundTripExactly(fs: seq<Field>, slots: seq<Slot>)
    requires WFFields(fs) && TypedMsg(fs, slots)
    requires EncMsg(fs, slots).Some? && |EncMsg(fs, slots).value| < TWO63
    ensures DecMsg(fs, EncMsg(fs, slots).value) == if FitsMsg(fs, slots) then Some((CanonMsg(fs, slots), [])) else None
  {
    MsgRoundTrip(fs, slots);
  }
}
