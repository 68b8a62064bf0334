/** A repeated scalar field may arrive packed into blocks or one record per item; both mean the same. */
module Packed {
  import opened Bits
  import opened Varint
  import opened PbInput
  import opened Descriptor
  import opened Encoding
  import opened Decoding
  import opened Merge

  /** Byte strings that decode to the given items, any valid spelling of each. */
  ghost predicate Spells(f: Field, chunks: seq<seq<byte>>, vals: seq<Value>)
    requires WFField(f) && f.Packable()
  {
    |chunks| == |vals| && forall k :: 0 <= k < |chunks| ==> DecScalar(f, chunks[k]) == Done(vals[k], [])
  }

  function Flat(chunks: seq<seq<byte>>): seq<byte> {
    if chunks == [] then [] else chunks[0] + Flat(chunks[1..])
  }

  /** One record per item, each under a tag of the given wire type. */
  function Records(f: Field, wire: nat, chunks: seq<seq<byte>>): seq<byte> {
    if chunks == [] then [] else TagBytes(f.tag, wire) + chunks[0] + Records(f, wire, chunks[1..])
  }

  /** One record with all items. */
  function Block(f: Field, chunks: seq<seq<byte>>): seq<byte> {
    TagBytes(f.tag, WT_STRING) + Delimited(Flat(chunks))
  }

  lemma {:induction false} SpelledTyped(f: Field, chunks: seq<seq<byte>>, vals: seq<Value>, head: seq<Value>)
    requires WFField(f) && f.Packable() && Spells(f, chunks, vals) && TypedItems(f, head)
    requires |head| + |vals| <= PB_SIZE_MAX
    ensures TypedItems(f, head + vals)
  {
    hide DecScalar;
    forall k | 0 <= k < |vals| ensures TypedValue(f, vals[k]) {
      ScalarProgress(f, chunks[k]);
    }
  }

  lemma {:induction false} DecPackedAll(
    f: Field, chunks: seq<seq<byte>>, vals: seq<Value>, head: seq<Value>, limit: nat)
    requires WFField(f) && f.Packable() && Spells(f, chunks, vals) && TypedItems(f, head) && limit <= PB_SIZE_MAX
    ensures DecPacked(f, Flat(chunks), head, limit) ==
      if vals == [] || |head| + |vals| <= limit then Some(head + vals) else None
    decreases |chunks|
  {
    hide WFField, DecScalar;
    if chunks == [] {
      assert head + vals == head;
    } else {
      var rest := Flat(chunks[1..]);
      ScalarProgress(f, chunks[0]);
      DecScalarAppend(f, chunks[0], rest);
      assert [] + rest == rest;
      if |head| < limit {
        DecPackedAll(f, chunks[1..], vals[1..], head + [vals[0]], limit);
        assert head + [vals[0]] + vals[1..] == head + vals;
      }
    }
  }

  /** The decoder's state once field `i`, a repeated one, has received `head`. */
  function Received(fs: seq<Field>, i: nat, st: DecState, head: seq<Value>): (st': DecState)
    requires WFState(fs, st) && i < |fs| && fs[i].htype.Repeated? && TypedItems(fs[i], head)
    requires fs[i].FixedCount() ==> |head| <= fs[i].arraySize
    ensures WFState(fs, st')
  {
    var slot := ManySlot(fs, i, ItemsOf(fs, i, st.msg), head);
    TypedUpdate(fs, st.msg, i, slot);
    if fs[i].FixedCount() then DecState(st.msg[i := slot], st.seen, Some(i), |head|)
    else st.(msg := st.msg[i := slot])
  }

  lemma ReceivedTwice(fs: seq<Field>, i: nat, st: DecState, head: seq<Value>, more: seq<Value>)
    requires WFState(fs, st) && i < |fs| && fs[i].htype.Repeated?
    requires TypedItems(fs[i], head) && TypedItems(fs[i], more) && |head| <= |more|
    requires fs[i].FixedCount() ==> |more| <= fs[i].arraySize
    ensures var st' := Received(fs, i, st, head);
      && HeadOf(fs, i, st') == head && FixedCountReady(fs, i, st')
      && Received(fs, i, st', more) == Received(fs, i, st, more)
  {
    hide TypedItems, TypedSlot;
    var st', items := Received(fs, i, st, head), ItemsOf(fs, i, st.msg);
    ManyTwice(fs[i], items, head, more);
    assert st'.msg[i] == ManySlot(fs, i, items, head);
    assert ManySlot(fs, i, ItemsOf(fs, i, st'.msg), more) == ManySlot(fs, i, items, more);
    var slot := ManySlot(fs, i, items, more);
    assert st'.msg[i := slot] == st.msg[i := slot];
  }

  lemma ManyTwice(f: Field, items: seq<Value>, head: seq<Value>, more: seq<Value>)
    requires f.FixedCount() ==> |head| <= |more| <= |items|
    ensures f.FixedCount() ==>
      var items' := head + items[|head|..];
      items'[..|head|] == head && more + items'[|more|..] == more + items[|more|..]
  {}

  /** A record of a known repeated field at the front of the input. */
  lemma RepeatedRecord(fs: seq<Field>, i: nat, wire: nat, body: seq<byte>, rest: seq<byte>, st: DecState)
    requires WFFields(fs) && WFState(fs, st) && i < |fs| && fs[i].htype.Repeated? && wire < 8
    requires WFField(fs[i])
    requires DecElems(fs[i], wire, body + rest, HeadOf(fs, i, st)).Done? ==>
      DecElems(fs[i], wire, body + rest, HeadOf(fs, i, st)).rest == rest
    ensures var r := DecElems(fs[i], wire, body + rest, HeadOf(fs, i, st));
      DecFields(fs, TagBytes(fs[i].tag, wire) + body + rest, st) ==
        if r.Fail? || !FixedCountReady(fs, i, st) then Bad else DecFields(fs, rest, Received(fs, i, st, r.value))
  {
    hide DecElems, TypedItems, TypedMsg, ManySlot, HeadOf, ItemsOf, FixedCountReady, TagBytes, DecTag;
    var f := fs[i];
    var all := TagBytes(f.tag, wire) + body + rest;
    assert all == TagBytes(f.tag, wire) + (body + rest);
    TagRoundTrip(f.tag, wire, body + rest);
    TagNotEmpty(f.tag, wire);
    FindTagOf(fs, i);
    assert DecRecord(fs, f.tag, wire, body + rest, st) == DecRepeated(fs, i, wire, body + rest, st);
  }

  lemma TagNotEmpty(tag: nat, wire: nat)
    ensures TagBytes(tag, wire) != []
  {}

  /** Items one record at a time. */
  lemma {:induction false} DecRecordsAll(
    fs: seq<Field>, i: nat, wire: nat, chunks: seq<seq<byte>>, vals: seq<Value>, st: DecState)
    requires WFFields(fs) && WFState(fs, st) && i < |fs| && fs[i].htype.Repeated? && wire < 8 && wire != WT_STRING
    requires WFField(fs[i]) && fs[i].Packable() && Spells(fs[i], chunks, vals) && chunks != []
    ensures var head := HeadOf(fs, i, st);
      if |head| + |vals| <= fs[i].arraySize && FixedCountReady(fs, i, st) then
        TypedItems(fs[i], head + vals) &&
        DecFields(fs, Records(fs[i], wire, chunks), st) == Good(Received(fs, i, st, head + vals), [], false)
      else DecFields(fs, Records(fs[i], wire, chunks), st) == Bad
    decreases |chunks|
  {
    hide DecScalar, TagBytes, WFFields, WFField, WFState, ManySlot, ItemsOf, FixedCountReady, HeadOf, Received,
      TypedItems;
    var f, head, later := fs[i], HeadOf(fs, i, st), Records(fs[i], wire, chunks[1..]);
    OneElem(fs, i, wire, chunks[0], later, st);
    if |head| < f.arraySize && FixedCountReady(fs, i, st) {
      FieldBounds(f);
      SpelledTyped(f, chunks[..1], vals[..1], head);
      assert head + vals[..1] == head + [vals[0]];
      var st' := Received(fs, i, st, head + [vals[0]]);
      ReceivedOnce(fs, i, st, head + [vals[0]]);
      if chunks[1..] == [] {
        assert vals == [vals[0]];
        assert DecFields(fs, later, st') == Good(st', [], false) by { NothingLeft(fs, st'); }
      } else {
        DecRecordsAll(fs, i, wire, chunks[1..], vals[1..], st');
        assert head + [vals[0]] + vals[1..] == head + vals;
        if |head| + |vals| <= f.arraySize {
          ReceivedTwice(fs, i, st, head + [vals[0]], head + vals);
        }
      }
    }
  }

  lemma NothingLeft(fs: seq<Field>, st: DecState)
    requires WFFields(fs) && WFState(fs, st)
    ensures DecFields(fs, [], st) == Good(st, [], false)
  {}

  lemma ReceivedOnce(fs: seq<Field>, i: nat, st: DecState, head: seq<Value>)
    requires WFState(fs, st) && i < |fs| && fs[i].htype.Repeated? && TypedItems(fs[i], head)
    requires fs[i].FixedCount() ==> |head| <= fs[i].arraySize
    ensures WFState(fs, Received(fs, i, st, head)) && HeadOf(fs, i, Received(fs, i, st, head)) == head
    ensures FixedCountReady(fs, i, Received(fs, i, st, head))
  {
    ReceivedTwice(fs, i, st, head, head);
  }

  lemma OneElem(fs: seq<Field>, i: nat, wire: nat, chunk: seq<byte>, rest: seq<byte>, st: DecState)
    requires WFFields(fs) && WFState(fs, st) && i < |fs| && fs[i].htype.Repeated? && wire < 8 && wire != WT_STRING
    requires WFField(fs[i]) && fs[i].Packable()
    requires DecScalar(fs[i], chunk).Done? && DecScalar(fs[i], chunk).rest == []
    ensures var head := HeadOf(fs, i, st);
      if |head| < fs[i].arraySize && FixedCountReady(fs, i, st) then
        TypedItems(fs[i], head + [DecScalar(fs[i], chunk).value]) &&
        DecFields(fs, TagBytes(fs[i].tag, wire) + chunk + rest, st) ==
          DecFields(fs, rest, Received(fs, i, st, head + [DecScalar(fs[i], chunk).value]))
      else DecFields(fs, TagBytes(fs[i].tag, wire) + chunk + rest, st) == Bad
  {
    hide DecScalar, WFFields, WFField, WFState, DecFields, ManySlot, ItemsOf, FixedCountReady, HeadOf, Received,
      TagBytes;
    var f, head := fs[i], HeadOf(fs, i, st);
    DecScalarAppend(f, chunk, rest);
    assert [] + rest == rest;
    ScalarProgress(f, chunk);
    FieldBounds(f);
    RepeatedRecord(fs, i, wire, chunk, rest, st);
  }

  /** Items in one block. */
  lemma DecBlockAll(fs: seq<Field>, i: nat, chunks: seq<seq<byte>>, vals: seq<Value>, st: DecState)
    requires WFFields(fs) && WFState(fs, st) && i < |fs| && fs[i].htype.Repeated?
    requires WFField(fs[i]) && fs[i].Packable() && Spells(fs[i], chunks, vals) && chunks != [] && |Flat(chunks)| < TWO32
    ensures var head := HeadOf(fs, i, st);
      if |head| + |vals| <= fs[i].arraySize && FixedCountReady(fs, i, st) then
        TypedItems(fs[i], head + vals) &&
        DecFields(fs, Block(fs[i], chunks), st) == Good(Received(fs, i, st, head + vals), [], false)
      else DecFields(fs, Block(fs[i], chunks), st) == Bad
  {
    hide DecScalar, Spells, WFFields, WFField, WFState, ManySlot, ItemsOf, FixedCountReady, HeadOf, Received, TagBytes,
      Flat, DecFields, TypedItems;
    var f, head, block := fs[i], HeadOf(fs, i, st), Flat(chunks);
    FieldBounds(f);
    SpelledLength(f, chunks, vals);
    DecPackedAll(f, chunks, vals, head, f.arraySize);
    if |head| + |vals| <= f.arraySize { SpelledTyped(f, chunks, vals, head); }
    BlockRoundTrip(block, []);
    RepeatedRecord(fs, i, WT_STRING, Delimited(block), [], st);
    assert TagBytes(f.tag, WT_STRING) + Delimited(block) + [] == Block(f, chunks);
    if |head| + |vals| <= f.arraySize && FixedCountReady(fs, i, st) {
      ReceivedOnce(fs, i, st, head + vals);
      NothingLeft(fs, Received(fs, i, st, head + vals));
    }
  }

  lemma SpelledLength(f: Field, chunks: seq<seq<byte>>, vals: seq<Value>)
    requires WFField(f) && f.Packable() && Spells(f, chunks, vals)
    ensures |chunks| == |vals|
  {}

  lemma BlockRoundTrip(block: seq<byte>, rest: seq<byte>)
    requires |block| < TWO32
    ensures TakeBlock(Delimited(block) + rest) == Done(block, rest)
  {
    hide DecVarint32, EncVarint;
    Varint32RoundTrip(|block|, block + rest);
    assert Delimited(block) + rest == EncVarint(|block|) + (block + rest);
    assert (block + rest)[..|block|] == block && (block + rest)[|block|..] == rest;
  }

  /** Packed equals unpacked: from the same state, a block of items and one record per item leave the
      decoder in the same state, with the items appended, and both fail exactly when they exceed the
      array (or may not start yet because another fixed-count array is not full). */
  lemma PackedEqualsUnpacked(fs: seq<Field>, i: nat, wire: nat, chunks: seq<seq<byte>>, vals: seq<Value>, st: DecState)
    requires WFFields(fs) && WFState(fs, st) && i < |fs| && fs[i].htype.Repeated? && wire < 8 && wire != WT_STRING
    requires WFField(fs[i]) && fs[i].Packable() && Spells(fs[i], chunks, vals) && chunks != [] && |Flat(chunks)| < TWO32
    ensures DecFields(fs, Block(fs[i], chunks), st) == DecFields(fs, Records(fs[i], wire, chunks), st)
    ensures DecFields(fs, Block(fs[i], chunks), st).Good? <==>
      |HeadOf(fs, i, st)| + |vals| <= fs[i].arraySize && FixedCountReady(fs, i, st)
    ensures var r := DecFields(fs, Block(fs[i], chunks), st); r.Good? ==>
      && HeadOf(fs, i, r.st) == HeadOf(fs, i, st) + vals
      && forall j :: 0 <= j < |fs| && j != i ==> r.st.msg[j] == st.msg[j]
  {
    hide DecFields, WFFields, WFField, Spells, FixedCountReady, HeadOf, TypedItems;
    DecBlockAll(fs, i, chunks, vals, st);
    DecRecordsAll(fs, i, wire, chunks, vals, st);
    if |HeadOf(fs, i, st)| + |vals| <= fs[i].arraySize && FixedCountReady(fs, i, st) {
      ReceivedOnce(fs, i, st, HeadOf(fs, i, st) + vals);
    }
  }

  /** The empty list: an empty block changes nothing, like no record at all, unless the array is a fixed-count one,
      where it starts the count. */
  lemma EmptyBlockIsNothing(fs: seq<Field>, i: nat, st: DecState)
    requires WFFields(fs) && WFState(fs, st) && i < |fs| && fs[i].htype.Repeated?
    requires WFField(fs[i]) && fs[i].Packable()
    ensures fs[i].FixedCount() || DecFields(fs, Block(fs[i], []), st) ==
      DecFields(fs, Records(fs[i], WireType(fs[i]), []), st)
    ensures fs[i].FixedCount() && FixedCountReady(fs, i, st) ==>
      var st' := st.(fixedField := Some(i), fixedCount := |HeadOf(fs, i, st)|);
      DecFields(fs, Block(fs[i], []), st) == Good(st', [], false)
  {
    hide DecFields, WFFields, WFField, TypedItems, TagBytes, DecScalar;
    var f, head := fs[i], HeadOf(fs, i, st);
    BlockRoundTrip([], []);
    assert DecElems(f, WT_STRING, Delimited([]) + [], head) == Done(head, []);
    RepeatedRecord(fs, i, WT_STRING, Delimited([]), [], st);
    assert TagBytes(f.tag, WT_STRING) + Delimited([]) + [] == Block(f, []);
    if FixedCountReady(fs, i, st) {
      var st' := Received(fs, i, st, head);
      var items := ItemsOf(fs, i, st.msg);
      assert TypedSlot(fs, i, st.msg[i]);
      assert st.msg[i] == Many(items);
      assert head + items[|head|..] == items;
      assert st'.msg == st.msg;
      NothingLeft(fs, st');
      NothingLeft(fs, st);
    }
  }
}
