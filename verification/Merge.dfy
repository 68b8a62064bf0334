/** Decoding is local: a complete record is read the same way whatever follows. From that, concatenating
    messages merges them, and unknown fields leave no trace. */
module Merge {
  import opened Bits
  import opened Varint
  import opened PbInput
  import opened Descriptor
  import opened FieldIterator
  import opened Encoding
  import opened Decoding

  // ---- Locality ----------------------------------------------------------------------------

  /** `r` read from some input, and `r'` read from that input followed by `b`. */
  ghost predicate Extends<T>(r: Parse<T>, r': Parse<T>, b: seq<byte>) {
    r.Done? ==> r' == Done(r.value, r.rest + b)
  }

  lemma SizedBytesAppend(f: Field, a: seq<byte>, b: seq<byte>)
    ensures Extends(SizedBytes(f, a), SizedBytes(f, a + b), b)
  {
    hide DecVarint32;
    if SizedBytes(f, a).Done? {
      DecVarint32Append(a, b);
      var Done(size, rest) := DecVarint32(a);
      assert (rest + b)[..size] == rest[..size] && (rest + b)[size..] == rest[size..] + b;
    }
  }

  lemma DecScalarAppend(f: Field, a: seq<byte>, b: seq<byte>)
    requires WFField(f) && !f.ltype.Submessage?
    ensures Extends(DecScalar(f, a), DecScalar(f, a + b), b)
  {
    hide DecVarint, DecVarint32, SizedBytes, NumberOf, WFField, TypedScalar;
    if DecScalar(f, a).Done? {
      if f.ltype.Bool? {
        DecVarint32Append(a, b);
      } else if f.ltype.Fixed32? {
        assert (a + b)[..4] == a[..4] && (a + b)[4..] == a[4..] + b;
      } else if f.ltype.Fixed64? {
        assert (a + b)[..8] == a[..8] && (a + b)[8..] == a[8..] + b;
      } else if f.ltype.Bytes? || f.ltype.String? || f.ltype.FixedLengthBytes? {
        SizedBytesAppend(f, a, b);
      } else {
        DecVarintAppend(a, b);
      }
    }
  }

  lemma DecValueAppend(f: Field, a: seq<byte>, b: seq<byte>, old_: Value)
    requires WFField(f) && TypedValue(f, old_)
    ensures Extends(DecValue(f, a, old_), DecValue(f, a + b, old_), b)
  {
    hide DecScalar, TakeBlock, DecNoinit, WFField;
    if f.ltype.Submessage? {
      if TakeBlock(a).Done? { TakeBlockAppend(a, b); }
    } else {
      DecScalarAppend(f, a, b);
    }
  }

  lemma DecElemsAppend(f: Field, wire: nat, a: seq<byte>, b: seq<byte>, head: seq<Value>)
    requires WFField(f) && TypedItems(f, head)
    ensures Extends(DecElems(f, wire, a, head), DecElems(f, wire, a + b, head), b)
  {
    hide WFField, TakeBlock, DecPacked, DecValue, TypedItems, InitItem;
    if wire == WT_STRING && f.Packable() {
      if TakeBlock(a).Done? { TakeBlockAppend(a, b); }
    } else {
      InitValueTyped(f);
      DecValueAppend(f, a, b, InitItem(f));
    }
  }

  lemma DecRecordAppend(fs: seq<Field>, tag: nat, wire: nat, a: seq<byte>, b: seq<byte>, st: DecState)
    requires WFFields(fs) && WFState(fs, st)
    ensures Extends(DecRecord(fs, tag, wire, a, st), DecRecord(fs, tag, wire, a + b, st), b)
  {
    hide WFField, WFState, TypedMsg, DecVarint32, SkipPayload, DecElems, DecValue, BaseOf, HeadOf, ItemsOf, ManySlot,
      FilledSlot, SeenWith;
    var i := FindTag(fs, tag);
    if DecRecord(fs, tag, wire, a, st).Done? {
      if i < |fs| {
        assert WFField(fs[i]);
        if fs[i].htype.Repeated? {
          assert DecRecord(fs, tag, wire, a, st) == DecRepeated(fs, i, wire, a, st);
          DecElemsAppend(fs[i], wire, a, b, HeadOf(fs, i, st));
          assert DecRecord(fs, tag, wire, a + b, st) == DecRepeated(fs, i, wire, a + b, st);
        } else {
          StateShape(fs, st);
          DecValueAppend(fs[i], a, b, BaseOf(fs, i, st.msg));
        }
      } else if fs == [] && tag == 0 {
        DecVarint32Append(a, b);
      } else {
        SkipAppend(wire, a, b);
      }
    }
  }

  /** Decoding `a ++ b` is decoding `a` and going on with `b`; a zero tag in `a` stops before `b`. */
  lemma {:induction false} DecFieldsAppend(fs: seq<Field>, a: seq<byte>, b: seq<byte>, st: DecState)
    requires WFFields(fs) && WFState(fs, st) && DecFields(fs, a, st).Good?
    ensures var r := DecFields(fs, a, st);
      DecFields(fs, a + b, st) == if r.ended then Good(r.st, r.rest + b, true) else DecFields(fs, b, r.st)
    decreases |a|
  {
    hide WFFields, WFState, DecRecord, DecTag;
    if a == [] {
      assert a + b == b;
    } else {
      DecTagAppend(a, b);
      if DecTag(a).Tag? {
        var Tag(tag, wire, rest) := DecTag(a);
        DecRecordAppend(fs, tag, wire, rest, b, st);
        var Done(st', rest') := DecRecord(fs, tag, wire, rest, st);
        DecFieldsAppend(fs, rest', b, st');
      }
    }
  }

  // ---- Concatenation merges ----------------------------------------------------------------

  predicate NoRequired(fs: seq<Field>) {
    forall i :: 0 <= i < |fs| ==> !fs[i].htype.Required?
  }

  /** The same state, with more required fields already seen. */
  function AlsoSeen(st: DecState, more: set<nat>): DecState {
    st.(seen := st.seen + more)
  }

  ghost predicate ValidSeen(fs: seq<Field>, more: set<nat>) {
    forall k :: k in more ==> k < CheckedRequired(fs)
  }

  /** What was seen before has no influence on how a record is decoded. */
  lemma DecRecordSeen(fs: seq<Field>, tag: nat, wire: nat, bs: seq<byte>, st: DecState, more: set<nat>)
    requires WFFields(fs) && WFState(fs, st) && ValidSeen(fs, more)
    ensures WFState(fs, AlsoSeen(st, more))
    ensures var r := DecRecord(fs, tag, wire, bs, st);
      DecRecord(fs, tag, wire, bs, AlsoSeen(st, more)) ==
        if r.Fail? then Fail else Done(AlsoSeen(r.value, more), r.rest)
  {
    hide WFFields, WFField, TypedMsg, DecVarint32, SkipPayload, DecElems, DecValue, BaseOf, ItemsOf, ManySlot,
      FilledSlot, FindTag;
    var i := FindTag(fs, tag);
    FindTagRange(fs, tag);
    if i < |fs| && fs[i].htype.Repeated? {
      var st' := AlsoSeen(st, more);
      assert DecRecord(fs, tag, wire, bs, st) == DecRepeated(fs, i, wire, bs, st);
      assert DecRecord(fs, tag, wire, bs, st') == DecRepeated(fs, i, wire, bs, st');
      assert HeadOf(fs, i, st) == HeadOf(fs, i, st');
    } else if i < |fs| {
      assert SeenWith(fs, i, st.seen + more) == SeenWith(fs, i, st.seen) + more;
    }
  }

  lemma FindTagRange(fs: seq<Field>, tag: nat)
    ensures FindTag(fs, tag) <= |fs|
  {}

  lemma {:induction false} DecFieldsSeen(fs: seq<Field>, bs: seq<byte>, st: DecState, more: set<nat>)
    requires WFFields(fs) && WFState(fs, st) && ValidSeen(fs, more)
    ensures WFState(fs, AlsoSeen(st, more))
    ensures var r := DecFields(fs, bs, st);
      DecFields(fs, bs, AlsoSeen(st, more)) == if r.Bad? then Bad else r.(st := AlsoSeen(r.st, more))
    decreases |bs|
  {
    hide WFFields, DecRecord, DecTag, TypedMsg;
    if bs != [] && DecTag(bs).Tag? {
      var Tag(tag, wire, rest) := DecTag(bs);
      DecRecordSeen(fs, tag, wire, rest, st, more);
      var r := DecRecord(fs, tag, wire, rest, st);
      if r.Done? { DecFieldsSeen(fs, r.rest, r.value, more); }
    }
  }

  lemma {:induction false} NoneRequired(fs: seq<Field>, n: nat)
    requires NoRequired(fs) && n <= |fs|
    ensures RequiredBefore(fs, n) == 0
  {
    if n > 0 { NoneRequired(fs, n - 1); }
  }

  // ---- Fixed-count arrays across the seam ----------------------------------------------------

  /** Where a record ends. The bytes and the table tell, without decoding what was before. */
  function RecordEnd(fs: seq<Field>, tag: nat, wire: nat, bs: seq<byte>): (r: Option<seq<byte>>)
    requires WFFields(fs)
    ensures r.Some? ==> |r.value| < |bs|
  {
    var i := FindTag(fs, tag);
    if i == |fs| then
      match SkipPayload(wire, bs) { case Fail => None case Done(_, rest) => Some(rest) }
    else if fs[i].ltype.Submessage? || (fs[i].htype.Repeated? && wire == WT_STRING && fs[i].Packable()) then
      match TakeBlock(bs) { case Fail => None case Done(_, rest) => Some(rest) }
    else
      assert WFField(fs[i]);
      match DecScalar(fs[i], bs) { case Fail => None case Done(_, rest) => Some(rest) }
  }

  /** The first fixed-count array of which `bs` holds a record. */
  function FirstFixed(fs: seq<Field>, bs: seq<byte>): Option<nat>
    requires WFFields(fs)
    decreases |bs|
  {
    if bs == [] || fs == [] then None
    else
      match DecTag(bs)
      case Tag(tag, wire, rest) =>
        var i := FindTag(fs, tag);
        if i < |fs| && fs[i].FixedCount() then Some(i)
        else
          (match RecordEnd(fs, tag, wire, rest)
           case None => None
           case Some(rest') => FirstFixed(fs, rest'))
      case _ => None
  }

  lemma ElemsEnd(f: Field, wire: nat, bs: seq<byte>, head: seq<Value>)
    requires WFField(f) && TypedItems(f, head) && DecElems(f, wire, bs, head).Done?
    ensures if f.ltype.Submessage? || (wire == WT_STRING && f.Packable())
      then TakeBlock(bs).Done? && TakeBlock(bs).rest == DecElems(f, wire, bs, head).rest
      else DecScalar(f, bs).Done? && DecScalar(f, bs).rest == DecElems(f, wire, bs, head).rest
  {
    hide WFField, TypedItems, DecScalar, TakeBlock, DecPacked, DecNoinit, InitItem;
  }

  lemma RecordEndAgrees(fs: seq<Field>, tag: nat, wire: nat, bs: seq<byte>, st: DecState)
    requires WFFields(fs) && WFState(fs, st) && fs != [] && DecRecord(fs, tag, wire, bs, st).Done?
    ensures RecordEnd(fs, tag, wire, bs) == Some(DecRecord(fs, tag, wire, bs, st).rest)
  {
    hide WFState, TypedMsg, TypedItems, DecScalar, SkipPayload, TakeBlock, DecElems, DecNoinit, BaseOf, ItemsOf,
      HeadOf, ManySlot,
      FilledSlot, SeenWith, FixedCountReady, FindTag;
    var i := FindTag(fs, tag);
    FindTagRange(fs, tag);
    StateShape(fs, st);
    if i < |fs| {
      var f := fs[i];
      assert WFField(f);
      if f.htype.Repeated? {
        assert DecRecord(fs, tag, wire, bs, st) == DecRepeated(fs, i, wire, bs, st);
        ElemsEnd(f, wire, bs, HeadOf(fs, i, st));
      } else {
        assert DecRecord(fs, tag, wire, bs, st) == DecKnown(fs, i, wire, bs, st);
        assert DecValue(f, bs, BaseOf(fs, i, st.msg)).rest == DecRecord(fs, tag, wire, bs, st).rest;
      }
    }
  }

  /** The same state, with another account of fixed-count arrays. */
  function Tracking(st: DecState, field: Option<nat>, count: nat): DecState {
    st.(fixedField := field, fixedCount := count)
  }

  predicate ValidCount(fs: seq<Field>, field: Option<nat>, count: nat) {
    match field
    case None => count == 0
    case Some(i) => i < |fs| && fs[i].FixedCount() && count <= fs[i].arraySize
  }

  /** A record of any other field ignores that account. */
  lemma OtherRecord(fs: seq<Field>, tag: nat, wire: nat, bs: seq<byte>, st: DecState, field: Option<nat>, count: nat)
    requires WFFields(fs) && WFState(fs, st) && ValidCount(fs, field, count)
    requires FindTag(fs, tag) < |fs| ==> !fs[FindTag(fs, tag)].FixedCount()
    ensures WFState(fs, Tracking(st, field, count))
    ensures var r := DecRecord(fs, tag, wire, bs, st);
      && (r.Done? ==> Tracking(r.value, st.fixedField, st.fixedCount) == r.value)
      && DecRecord(fs, tag, wire, bs, Tracking(st, field, count))
         == if r.Fail? then Fail else Done(Tracking(r.value, field, count), r.rest)
  {
    hide WFFields, WFField, TypedMsg, DecVarint32, SkipPayload, DecElems, DecValue, BaseOf, ItemsOf, ManySlot,
      FilledSlot, FindTag,
      SeenWith;
    var i, st' := FindTag(fs, tag), Tracking(st, field, count);
    FindTagRange(fs, tag);
    if i < |fs| && fs[i].htype.Repeated? {
      assert DecRecord(fs, tag, wire, bs, st) == DecRepeated(fs, i, wire, bs, st);
      assert DecRecord(fs, tag, wire, bs, st') == DecRepeated(fs, i, wire, bs, st');
      assert HeadOf(fs, i, st) == HeadOf(fs, i, st');
    }
  }

  /** A record of a fixed-count array that is not the one in progress starts afresh when that one is full. */
  lemma FreshRecord(fs: seq<Field>, tag: nat, wire: nat, bs: seq<byte>, st: DecState, i: nat)
    requires WFFields(fs) && WFState(fs, st) && st.fixedField.None?
    requires i < |fs| && fs[i].FixedCount() && FindTag(fs, tag) < |fs| && fs[FindTag(fs, tag)].FixedCount()
    ensures var k := FindTag(fs, tag);
      var full := Tracking(st, Some(i), fs[i].arraySize);
      && WFState(fs, full)
      && (k != i ==> DecRecord(fs, tag, wire, bs, full) == DecRecord(fs, tag, wire, bs, st))
      && WFState(fs, Tracking(st, Some(k), 0))
      && DecRecord(fs, tag, wire, bs, Tracking(st, Some(k), 0)) == DecRecord(fs, tag, wire, bs, st)
  {
    hide WFFields, WFField, TypedMsg, DecElems, ItemsOf, ManySlot, FindTag;
    var k := FindTag(fs, tag);
    var full, zero := Tracking(st, Some(i), fs[i].arraySize), Tracking(st, Some(k), 0);
    assert DecRecord(fs, tag, wire, bs, st) == DecRepeated(fs, k, wire, bs, st);
    assert DecRecord(fs, tag, wire, bs, full) == DecRepeated(fs, k, wire, bs, full);
    assert DecRecord(fs, tag, wire, bs, zero) == DecRepeated(fs, k, wire, bs, zero);
    assert HeadOf(fs, k, zero) == HeadOf(fs, k, st) == [];
  }

  /** Two outcomes that differ at most in that one of them knows of the full array `i` and the other of none. */
  predicate Agree(fs: seq<Field>, i: nat, r: FieldsResult, r': FieldsResult)
    requires i < |fs|
  {
    if r.Bad? then r'.Bad?
    else r'.Good? && (r' == r || (r.st.fixedField.None? && r' == r.(st := Tracking(r.st, Some(i), fs[i].arraySize))))
  }

  lemma {:induction false} SeamAgrees(fs: seq<Field>, bs: seq<byte>, st: DecState, i: nat)
    requires WFFields(fs) && WFState(fs, st) && st.fixedField.None? && i < |fs| && fs[i].FixedCount()
    requires FirstFixed(fs, bs) != Some(i) || fs[i].arraySize == 0
    ensures WFState(fs, Tracking(st, Some(i), fs[i].arraySize))
    ensures Agree(fs, i, DecFields(fs, bs, st), DecFields(fs, bs, Tracking(st, Some(i), fs[i].arraySize)))
    decreases |bs|
  {
    hide WFFields, WFField, DecRecord, DecTag, TypedMsg, RecordEnd, FindTag;
    if bs != [] && DecTag(bs).Tag? {
      var Tag(tag, wire, rest) := DecTag(bs);
      FindTagRange(fs, tag);
      var k, full := FindTag(fs, tag), Tracking(st, Some(i), fs[i].arraySize);
      var r := DecRecord(fs, tag, wire, rest, st);
      if k < |fs| && fs[k].FixedCount() {
        FreshRecord(fs, tag, wire, rest, st, i);
      } else {
        OtherRecord(fs, tag, wire, rest, st, Some(i), fs[i].arraySize);
        if r.Done? {
          RecordEndAgrees(fs, tag, wire, rest, st);
          SeamAgrees(fs, r.rest, r.value, i);
        }
      }
    }
  }

  /** No fixed-count array is left half full. */
  predicate FixedDone(fs: seq<Field>, st: DecState)
    requires WFState(fs, st)
  {
    st.fixedField.Some? ==> st.fixedCount == fs[st.fixedField.value].arraySize
  }

  /** A full array takes no further item: only an empty block passes. */
  lemma FullElems(f: Field, wire: nat, bs: seq<byte>, head: seq<Value>)
    requires WFField(f) && TypedItems(f, head) && TypedItems(f, []) && |head| >= f.arraySize > 0
    ensures var r := DecElems(f, wire, bs, head);
      r.Done? ==> r.value == head && DecElems(f, wire, bs, []) == Done([], r.rest)
  {
    hide DecScalar, DecValue, TypedItems, TakeBlock;
  }

  lemma FullRecord(fs: seq<Field>, tag: nat, wire: nat, bs: seq<byte>, st: DecState, i: nat)
    requires WFFields(fs) && WFState(fs, st) && st.fixedField == Some(i) && st.fixedCount == 0
    requires fs[i].arraySize > 0 && FindTag(fs, tag) == i
    ensures WFState(fs, Tracking(st, Some(i), fs[i].arraySize))
    ensures var r := DecRecord(fs, tag, wire, bs, Tracking(st, Some(i), fs[i].arraySize));
      r.Done? ==>
        r.value == Tracking(st, Some(i), fs[i].arraySize) && DecRecord(fs, tag, wire, bs, st) == Done(st, r.rest)
  {
    hide DecElems, FindTag, TypedItems;
    var full, items := Tracking(st, Some(i), fs[i].arraySize), ItemsOf(fs, i, st.msg);
    assert WFField(fs[i]) && TypedSlot(fs, i, st.msg[i]) && st.msg[i] == Many(items);
    assert DecRecord(fs, tag, wire, bs, st) == DecRepeated(fs, i, wire, bs, st);
    assert DecRecord(fs, tag, wire, bs, full) == DecRepeated(fs, i, wire, bs, full);
    assert HeadOf(fs, i, st) == [];
    assert HeadOf(fs, i, full) == items[..fs[i].arraySize] == items;
    FullElems(fs[i], wire, bs, items);
    assert items + items[|items|..] == items && [] + items[0..] == items;
    assert st.msg[i := Many(items)] == st.msg;
  }

  /** What fills array `i` from the start overflows it when it is full already. */
  lemma {:induction false} SeamClashes(fs: seq<Field>, bs: seq<byte>, st: DecState, i: nat)
    requires WFFields(fs) && WFState(fs, st) && st.fixedField == Some(i) && st.fixedCount == 0 && fs[i].arraySize > 0
    requires DecFields(fs, bs, st).Good? && FixedDone(fs, DecFields(fs, bs, st).st)
    ensures WFState(fs, Tracking(st, Some(i), fs[i].arraySize))
    ensures DecFields(fs, bs, Tracking(st, Some(i), fs[i].arraySize)) == Bad
    decreases |bs|
  {
    hide WFFields, WFField, DecRecord, DecTag, TypedMsg, FindTag;
    assert bs != [] && DecTag(bs).Tag?;
    var Tag(tag, wire, rest) := DecTag(bs);
    FindTagRange(fs, tag);
    var k, full := FindTag(fs, tag), Tracking(st, Some(i), fs[i].arraySize);
    var r := DecRecord(fs, tag, wire, rest, st);
    if k == i {
      FullRecord(fs, tag, wire, rest, st, i);
      if DecRecord(fs, tag, wire, rest, full).Done? { SeamClashes(fs, r.rest, st, i); }
    } else {
      NotYetReady(fs, tag, wire, rest, st, i);
      OtherRecord(fs, tag, wire, rest, st, Some(i), fs[i].arraySize);
      SeamClashes(fs, r.rest, r.value, i);
    }
  }

  lemma NotYetReady(fs: seq<Field>, tag: nat, wire: nat, bs: seq<byte>, st: DecState, i: nat)
    requires WFFields(fs) && WFState(fs, st) && st.fixedField == Some(i) && st.fixedCount < fs[i].arraySize
    requires FindTag(fs, tag) != i
    ensures FindTag(fs, tag) < |fs| && fs[FindTag(fs, tag)].FixedCount() ==> DecRecord(fs, tag, wire, bs, st) == Fail
  {
    hide DecElems, WFFields, TypedMsg, ItemsOf, HeadOf, ManySlot, FindTag;
    var k := FindTag(fs, tag);
    FindTagRange(fs, tag);
    if k < |fs| && fs[k].FixedCount() {
      assert DecRecord(fs, tag, wire, bs, st) == DecRepeated(fs, k, wire, bs, st);
    }
  }

  /** The other half of `SeamAgrees`. */
  lemma {:induction false} SeamBreaks(fs: seq<Field>, bs: seq<byte>, st: DecState, i: nat)
    requires WFFields(fs) && WFState(fs, st) && st.fixedField.None?
    requires i < |fs| && fs[i].FixedCount() && fs[i].arraySize > 0
    ensures WFState(fs, Tracking(st, Some(i), fs[i].arraySize))
    ensures var r := DecFields(fs, bs, st);
      FirstFixed(fs, bs) == Some(i) && r.Good? && FixedDone(fs, r.st) ==>
        DecFields(fs, bs, Tracking(st, Some(i), fs[i].arraySize)) == Bad
    decreases |bs|
  {
    hide WFFields, WFField, DecRecord, DecTag, TypedMsg, RecordEnd, FindTag;
    var all := DecFields(fs, bs, st);
    if FirstFixed(fs, bs) == Some(i) && all.Good? && FixedDone(fs, all.st) {
      var Tag(tag, wire, rest) := DecTag(bs);
      FindTagRange(fs, tag);
      var k := FindTag(fs, tag);
      if k == i {
        FreshRecord(fs, tag, wire, rest, st, i);
        var zero := Tracking(st, Some(i), 0);
        assert DecFields(fs, bs, zero) == DecFields(fs, bs, st);
        SeamClashes(fs, bs, zero, i);
      } else {
        var r := DecRecord(fs, tag, wire, rest, st);
        OtherRecord(fs, tag, wire, rest, st, Some(i), fs[i].arraySize);
        RecordEndAgrees(fs, tag, wire, rest, st);
        SeamBreaks(fs, r.rest, r.value, i);
      }
    }
  }

  /** `b` goes back to the fixed-count array that `a` ended with. */
  predicate BackToFixed(fs: seq<Field>, end: DecState, b: seq<byte>)
    requires WFFields(fs) && WFState(fs, end)
  {
    end.fixedField.Some? && fs[end.fixedField.value].arraySize > 0 && FirstFixed(fs, b) == end.fixedField
  }

  /** Decoding on from the end of `a`, against decoding `b` by itself into the same struct. */
  lemma Seam(fs: seq<Field>, b: seq<byte>, end: DecState)
    requires WFFields(fs) && WFState(fs, end) && Complete(fs, end)
    ensures WFState(fs, Start(end.msg))
    ensures var r, on := DecFields(fs, b, Start(end.msg)), DecFields(fs, b, end);
      && (!BackToFixed(fs, end, b) ==>
            if r.Bad? then on.Bad?
            else && on.Good? && on.st.msg == r.st.msg && on.rest == r.rest
                 && (FixedDone(fs, on.st) <==> FixedDone(fs, r.st)) && on.st.seen == r.st.seen + end.seen)
      && (BackToFixed(fs, end, b) && r.Good? && FixedDone(fs, r.st) ==> on.Bad?)
  {
    hide WFFields, TypedMsg, DecFields, FirstFixed, RequiredBefore, CheckedRequired;
    DecFieldsSeen(fs, b, Start(end.msg), end.seen);
    var st := AlsoSeen(Start(end.msg), end.seen);
    if end.fixedField.None? {
      assert st == end;
    } else {
      var i := end.fixedField.value;
      assert Tracking(st, Some(i), fs[i].arraySize) == end;
      if !BackToFixed(fs, end, b) {
        SeamAgrees(fs, b, st, i);
      } else if DecFields(fs, b, st).Good? && FixedDone(fs, DecFields(fs, b, st).st) {
        SeamBreaks(fs, b, st, i);
      }
    }
  }

  /** Concatenation is merge. If `a` decodes into `m` without a zero tag and `b` then decodes into the result, decoding
      `a ++ b` into `m` gives the same, if and only if `b` does not go back to the fixed-count array `a` ended with;
      then it fails. Without required fields the two agree on failure as well. */
  lemma ConcatenationIsMerge(fs: seq<Field>, a: seq<byte>, b: seq<byte>, m: seq<Slot>)
    requires WFFields(fs) && TypedMsg(fs, m)
    ensures DecNoinit(fs, a, m).Some? && !DecFields(fs, a, Start(m)).ended ==>
      var merged := DecNoinit(fs, b, DecNoinit(fs, a, m).value.0);
      var back := BackToFixed(fs, DecFields(fs, a, Start(m)).st, b);
      && (merged.Some? ==> (DecNoinit(fs, a + b, m) == merged <==> !back))
      && (merged.Some? && back ==> DecNoinit(fs, a + b, m) == None)
      && (NoRequired(fs) && !back ==> DecNoinit(fs, a + b, m) == merged)
  {
    hide WFFields, TypedMsg, DecFields, BackToFixed;
    if DecNoinit(fs, a, m).Some? && !DecFields(fs, a, Start(m)).ended {
      var end := DecFields(fs, a, Start(m)).st;
      DecFieldsAppend(fs, a, b, Start(m));
      Seam(fs, b, end);
      if NoRequired(fs) { NoneRequired(fs, |fs|); }
    }
  }

  // ---- Unknown fields ----------------------------------------------------------------------

  lemma TagRoundTrip(tag: nat, wire: nat, rest: seq<byte>)
    requires 1 <= tag < 0x2000_0000 && wire < 8
    ensures DecTag(TagBytes(tag, wire) + rest) == Tag(tag, wire, rest)
  {
    hide DecVarint32, EncVarint;
    Varint32RoundTrip(tag * 8 + wire, rest);
  }

  /** A well-formed field whose tag is not in the table, however that tag is spelled, put between two fields, changes
      nothing: neither the struct nor the unread input nor whether decoding succeeds. On a table that is not empty
      this includes tag 0 with a wire type other than 0. */
  lemma UnknownFieldIsTransparent(
    fs: seq<Field>, a: seq<byte>, t: seq<byte>, payload: seq<byte>, b: seq<byte>, m: seq<Slot>)
    requires WFFields(fs) && TypedMsg(fs, m)
    ensures DecFields(fs, a, Start(m)).Good? && !DecFields(fs, a, Start(m)).ended && UnknownField(fs, t, payload) ==>
      DecNoinit(fs, a + (t + payload + b), m) == DecNoinit(fs, a + b, m)
  {
    hide WFFields, TypedMsg, DecFields, UnknownField;
    if DecFields(fs, a, Start(m)).Good? && !DecFields(fs, a, Start(m)).ended && UnknownField(fs, t, payload) {
      var st := DecFields(fs, a, Start(m)).st;
      DecFieldsAppend(fs, a, t + payload + b, Start(m));
      DecFieldsAppend(fs, a, b, Start(m));
      UnknownSkipped(fs, t, payload, b, st);
    }
  }

  /** A tag that is not in the table, in any spelling, and a payload that its wire type describes. */
  predicate UnknownField(fs: seq<Field>, t: seq<byte>, payload: seq<byte>) {
    && DecTag(t).Tag? && DecTag(t).rest == []
    && FindTag(fs, DecTag(t).tag) == |fs| && (fs == [] ==> DecTag(t).tag != 0)
    && SkipPayload(DecTag(t).wire, payload) == Done((), [])
  }

  lemma UnknownSkipped(fs: seq<Field>, t: seq<byte>, payload: seq<byte>, b: seq<byte>, st: DecState)
    requires WFFields(fs) && WFState(fs, st) && UnknownField(fs, t, payload)
    ensures DecFields(fs, t + payload + b, st) == DecFields(fs, b, st)
  {
    hide WFFields, WFState, SkipPayload, DecTag, FindTag;
    var unknown, tag, wire := t + payload + b, DecTag(t).tag, DecTag(t).wire;
    TagPresent(t);
    assert unknown == t + (payload + b);
    DecTagAppend(t, payload + b);
    assert [] + (payload + b) == payload + b;
    SkipAppend(wire, payload, b);
    assert [] + b == b;
    assert DecRecord(fs, tag, wire, payload + b, st) == Done(st, b);
  }

  lemma TagPresent(t: seq<byte>)
    requires DecTag(t).Tag?
    ensures t != []
  {}

  /** On an empty table, tag 0 is not skipped by its wire type: whatever the type, its payload is read as one varint. */
  lemma ZeroTagOnEmptyTable(t: seq<byte>, rest: seq<byte>)
    requires DecTag(t).Tag? && DecTag(t).rest == [] && DecTag(t).tag == 0
    ensures DecNoinit([], t + rest, []) ==
      match DecVarint32(rest) { case Fail => None case Done(_, after) => DecNoinit([], after, []) }
  {
    hide DecTag, DecVarint32;
    TagPresent(t);
    DecTagAppend(t, rest);
    assert [] + rest == rest;
    var st := Start([]);
    assert DecRecord([], 0, DecTag(t).wire, rest, st) ==
      match DecVarint32(rest) { case Fail => Fail case Done(_, after) => Done(st, after) };
  }
}
