/** Records of different fields may come in any order. */
module RecordOrder {
  import opened Bits
  import opened PbInput
  import opened Descriptor
  import opened Decoding
  import opened Merge

  /** The bytes of one record of a field of the table, and nothing behind it. */
  predicate CompleteRecord(fs: seq<Field>, r: seq<byte>)
    requires WFFields(fs)
  {
    && DecTag(r).Tag?
    && FindTag(fs, DecTag(r).tag) < |fs|
    && RecordEnd(fs, DecTag(r).tag, DecTag(r).wire, DecTag(r).rest) == Some([])
  }

  function FieldIn(fs: seq<Field>, r: seq<byte>): nat
    requires WFFields(fs) && CompleteRecord(fs, r)
  {
    FindTag(fs, DecTag(r).tag)
  }

  /** What the record does to the decoder's state. */
  function Effect(fs: seq<Field>, r: seq<byte>, st: DecState): Parse<DecState>
    requires WFFields(fs) && WFState(fs, st) && CompleteRecord(fs, r)
  {
    DecRecord(fs, DecTag(r).tag, DecTag(r).wire, DecTag(r).rest, st)
  }

  // ---- A record does not look behind itself --------------------------------------------------------

  lemma ElemsLocal(f: Field, wire: nat, p: seq<byte>, b: seq<byte>, head: seq<Value>)
    requires WFField(f) && TypedItems(f, head) && DecElems(f, wire, p, head).Fail?
    requires if f.ltype.Submessage? || (wire == WT_STRING && f.Packable()) then TakeBlock(p).Done?
      else DecScalar(f, p).Done?
    ensures DecElems(f, wire, p + b, head).Fail?
  {
    hide WFField, TypedItems, DecScalar, TakeBlock, DecPacked, DecNoinit, InitItem;
    if f.ltype.Submessage? || (wire == WT_STRING && f.Packable()) {
      TakeBlockAppend(p, b);
    } else {
      DecScalarAppend(f, p, b);
    }
  }

  lemma ValueLocal(f: Field, p: seq<byte>, b: seq<byte>, base: Value)
    requires WFField(f) && TypedValue(f, base) && DecValue(f, p, base).Fail?
    requires if f.ltype.Submessage? then TakeBlock(p).Done? else DecScalar(f, p).Done?
    ensures DecValue(f, p + b, base).Fail?
  {
    hide TakeBlock, DecNoinit, DecScalar;
    if f.ltype.Submessage? { TakeBlockAppend(p, b); } else { DecScalarAppend(f, p, b); }
  }

  lemma RecordLocal(fs: seq<Field>, tag: nat, wire: nat, p: seq<byte>, b: seq<byte>, st: DecState)
    requires WFFields(fs) && WFState(fs, st) && FindTag(fs, tag) < |fs| && RecordEnd(fs, tag, wire, p) == Some([])
    ensures var r := DecRecord(fs, tag, wire, p, st);
      DecRecord(fs, tag, wire, p + b, st) == if r.Fail? then Fail else Done(r.value, b)
  {
    hide WFState, TypedMsg, TypedItems, DecScalar, TakeBlock, DecElems, DecValue, BaseOf, ItemsOf, HeadOf, ManySlot,
      FilledSlot, SeenWith, FixedCountReady, FindTag;
    var i, r := FindTag(fs, tag), DecRecord(fs, tag, wire, p, st);
    assert WFField(fs[i]);
    StateShape(fs, st);
    if r.Done? {
      DecRecordAppend(fs, tag, wire, p, b, st);
      RecordEndAgrees(fs, tag, wire, p, st);
      assert [] + b == b;
    } else if fs[i].htype.Repeated? {
      assert DecRecord(fs, tag, wire, p, st) == DecRepeated(fs, i, wire, p, st);
      assert DecRecord(fs, tag, wire, p + b, st) == DecRepeated(fs, i, wire, p + b, st);
      if FixedCountReady(fs, i, st) { ElemsLocal(fs[i], wire, p, b, HeadOf(fs, i, st)); }
    } else {
      assert DecRecord(fs, tag, wire, p, st) == DecKnown(fs, i, wire, p, st);
      ValueLocal(fs[i], p, b, BaseOf(fs, i, st.msg));
    }
  }

  lemma OneRecord(fs: seq<Field>, r: seq<byte>, more: seq<byte>, st: DecState)
    requires WFFields(fs) && WFState(fs, st) && CompleteRecord(fs, r)
    ensures var e := Effect(fs, r, st);
      DecFields(fs, r + more, st) == if e.Fail? then Bad else DecFields(fs, more, e.value)
  {
    hide WFFields, WFState, DecTag, DecRecord, RecordEnd, FindTag;
    var Tag(tag, wire, p) := DecTag(r);
    TagPresent(r);
    DecTagAppend(r, more);
    RecordLocal(fs, tag, wire, p, more, st);
  }

  // ---- A record touches its own slot only ----------------------------------------------------------------

  function SeenAfter(fs: seq<Field>, i: nat, seen: set<nat>): (r: set<nat>)
    requires i < |fs| && forall k :: k in seen ==> k < CheckedRequired(fs)
    ensures forall k :: k in r ==> k < CheckedRequired(fs)
  {
    if fs[i].htype.Repeated? then seen else SeenWith(fs, i, seen)
  }

  /** The two states look alike to a record of field `i`. */
  predicate Alike(fs: seq<Field>, i: nat, st: DecState, st': DecState)
    requires WFState(fs, st) && WFState(fs, st') && i < |fs|
  {
    && st'.msg[Home(fs, i)] == st.msg[Home(fs, i)]
    && (fs[i].FixedCount() ==> st'.fixedField == st.fixedField && st'.fixedCount == st.fixedCount)
  }

  /** `after` is `st` with the slot of field `i`, and what goes with it, as in `like`. */
  predicate OnlyField(fs: seq<Field>, i: nat, st: DecState, after: DecState, like: DecState)
    requires WFState(fs, st) && WFState(fs, after) && WFState(fs, like) && i < |fs|
  {
    && after.msg == st.msg[Home(fs, i) := like.msg[Home(fs, i)]]
    && after.seen == SeenAfter(fs, i, st.seen)
    && (if fs[i].FixedCount() then after.fixedField == like.fixedField && after.fixedCount == like.fixedCount
        else after.fixedField == st.fixedField && after.fixedCount == st.fixedCount)
  }

  lemma Frame(fs: seq<Field>, tag: nat, wire: nat, bs: seq<byte>, st: DecState, st': DecState)
    requires WFFields(fs) && WFState(fs, st) && WFState(fs, st') && FindTag(fs, tag) < |fs|
    requires Alike(fs, FindTag(fs, tag), st, st')
    ensures var i, r, r' := FindTag(fs, tag), DecRecord(fs, tag, wire, bs, st), DecRecord(fs, tag, wire, bs, st');
      && (r.Fail? <==> r'.Fail?)
      && (r.Done? ==> OnlyField(fs, i, st, r.value, r.value) && OnlyField(fs, i, st', r'.value, r.value))
  {
    hide WFFields, WFField, TypedMsg, DecElems, DecValue, FilledSlot, FindTag, SeenWith;
    var i := FindTag(fs, tag);
    StateShape(fs, st);
    StateShape(fs, st');
    if fs[i].htype.Repeated? {
      assert DecRecord(fs, tag, wire, bs, st) == DecRepeated(fs, i, wire, bs, st);
      assert DecRecord(fs, tag, wire, bs, st') == DecRepeated(fs, i, wire, bs, st');
      assert HeadOf(fs, i, st) == HeadOf(fs, i, st');
    } else {
      assert BaseOf(fs, i, st.msg) == BaseOf(fs, i, st'.msg);
    }
  }

  /** Two complete records of fields with different storage, not both of them fixed-count arrays, may be swapped: the
      decoder reaches the same state, or fails, either way. */
  lemma RecordsCommute(fs: seq<Field>, r1: seq<byte>, r2: seq<byte>, rest: seq<byte>, st: DecState)
    requires WFFields(fs) && WFState(fs, st) && CompleteRecord(fs, r1) && CompleteRecord(fs, r2)
    requires Home(fs, FieldIn(fs, r1)) != Home(fs, FieldIn(fs, r2))
    requires !fs[FieldIn(fs, r1)].FixedCount() || !fs[FieldIn(fs, r2)].FixedCount()
    ensures DecFields(fs, r1 + r2 + rest, st) == DecFields(fs, r2 + r1 + rest, st)
  {
    hide WFFields, TypedMsg, DecTag, DecRecord, DecFields, RecordEnd, FindTag, SeenWith;
    assert r1 + r2 + rest == r1 + (r2 + rest) && r2 + r1 + rest == r2 + (r1 + rest);
    OneRecord(fs, r1, r2 + rest, st);
    OneRecord(fs, r2, r1 + rest, st);
    var e1, e2 := Effect(fs, r1, st), Effect(fs, r2, st);
    if e1.Done? {
      OneRecord(fs, r2, rest, e1.value);
      AfterOther(fs, r1, r2, st);
    }
    if e2.Done? {
      OneRecord(fs, r1, rest, e2.value);
      AfterOther(fs, r2, r1, st);
    }
    if e1.Done? && e2.Done? {
      SameInTheEnd(fs, FieldIn(fs, r1), FieldIn(fs, r2), st, e1.value, e2.value,
                   Effect(fs, r2, e1.value).value, Effect(fs, r1, e2.value).value);
    }
  }

  /** After a record of one field, a record of the other does what it would have done before. */
  lemma AfterOther(fs: seq<Field>, r: seq<byte>, other: seq<byte>, st: DecState)
    requires WFFields(fs) && WFState(fs, st) && CompleteRecord(fs, r) && CompleteRecord(fs, other)
    requires Home(fs, FieldIn(fs, r)) != Home(fs, FieldIn(fs, other)) && Effect(fs, r, st).Done?
    requires !fs[FieldIn(fs, r)].FixedCount() || !fs[FieldIn(fs, other)].FixedCount()
    ensures var st', e := Effect(fs, r, st).value, Effect(fs, other, st);
      && OnlyField(fs, FieldIn(fs, r), st, st', st')
      && (e.Fail? <==> Effect(fs, other, st').Fail?)
      && (e.Done? ==> OnlyField(fs, FieldIn(fs, other), st', Effect(fs, other, st').value, e.value))
  {
    hide WFFields, TypedMsg, DecTag, DecRecord, RecordEnd, FindTag, SeenAfter;
    var st' := Effect(fs, r, st).value;
    StateShape(fs, st);
    Frame(fs, DecTag(r).tag, DecTag(r).wire, DecTag(r).rest, st, st);
    assert Alike(fs, FieldIn(fs, other), st, st');
    Frame(fs, DecTag(other).tag, DecTag(other).wire, DecTag(other).rest, st, st');
  }

  lemma SameInTheEnd(fs: seq<Field>, i: nat, j: nat, st: DecState, a: DecState, b: DecState, ab: DecState, ba: DecState)
    requires WFState(fs, st) && WFState(fs, a) && WFState(fs, b) && WFState(fs, ab) && WFState(fs, ba)
    requires i < |fs| && j < |fs| && Home(fs, i) != Home(fs, j) && (!fs[i].FixedCount() || !fs[j].FixedCount())
    requires OnlyField(fs, i, st, a, a) && OnlyField(fs, j, st, b, b)
    requires OnlyField(fs, j, a, ab, b) && OnlyField(fs, i, b, ba, a)
    ensures ab == ba
  {
    hide WFState, TypedMsg, SeenAfter, CheckedRequired;
    StateShape(fs, st);
    StateShape(fs, a);
    StateShape(fs, b);
    SeenCommutes(fs, i, j, st.seen);
    assert ab.msg == ba.msg;
  }

  lemma SeenCommutes(fs: seq<Field>, i: nat, j: nat, seen: set<nat>)
    requires i < |fs| && j < |fs| && forall k :: k in seen ==> k < CheckedRequired(fs)
    ensures SeenAfter(fs, j, SeenAfter(fs, i, seen)) == SeenAfter(fs, i, SeenAfter(fs, j, seen))
  {
    hide CheckedRequired;
  }
}
