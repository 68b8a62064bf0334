/** The decoder of pb_decode.c, working on an input stream in place. */
module Decoder {
  import opened Bits
  import opened Varint
  import opened PbInput
  import opened Descriptor
  import opened FieldIterator
  import opened Decoding
  import opened Unclosed

  // ---- Scalars ---------------------------------------------------------------------------------

  /** `pb_dec_bytes`, `pb_dec_string` and `pb_dec_fixed_length_bytes` up to the copy of the contents. */
  method DecodeSized(s: IStream, f: Field) returns (ok: bool, bytes: seq<byte>)
    requires s.Valid()
    modifies s
    ensures s.Valid() && s.pos + s.bytesLeft == old(s.pos + s.bytesLeft)
    ensures (if ok then Done(bytes, s.Rest()) else Fail) == old(SizedBytes(f, s.Rest()))
  {
    bytes := [];
    var size; ok, size := s.DecodeVarint32();
    if !ok { return; }
    if size > PB_SIZE_MAX { return false, []; }
    if f.ltype.Bytes? && size + 4 > f.dataSize { return false, []; }
    if f.ltype.String? && size + 1 > f.dataSize { return false, []; }
    if f.ltype.FixedLengthBytes? && size != 0 && size != f.dataSize { return false, []; }
    ok, bytes := s.Read(size);
  }

  /** `pb_dec_*` for everything but submessages. */
  method DecodeScalar(s: IStream, f: Field) returns (ok: bool, v: Value)
    requires s.Valid() && WFField(f) && !f.ltype.Submessage?
    modifies s
    ensures s.Valid() && s.pos + s.bytesLeft == old(s.pos + s.bytesLeft)
    ensures (if ok then Done(v, s.Rest()) else Fail) == old(DecScalar(f, s.Rest()))
    ensures !ok && f.Packable() ==> s.bytesLeft == ScalarLeft(f, old(s.Rest()))
  {
    hide DecVarint, DecVarint32, SizedBytes, TypedScalar;
    v := Num(0);
    if f.ltype.Bool? {
      var w; ok, w := s.DecodeVarint32();
      if ok { v := Num(if w != 0 then 1 else 0); }
    } else if f.ltype.Fixed32? {
      var bytes; ok, bytes := s.Read(4);
      if ok { v := Num(FromLittleEndian(bytes)); }
    } else if f.ltype.Fixed64? {
      var bytes; ok, bytes := s.Read(8);
      if ok { v := Num(FromLittleEndian(bytes)); }
    } else if f.ltype.Bytes? {
      var bytes; ok, bytes := DecodeSized(s, f);
      if ok { v := Str(bytes); }
    } else if f.ltype.String? {
      var bytes; ok, bytes := DecodeSized(s, f);
      if ok { v := Str(CString(bytes)); }
    } else if f.ltype.FixedLengthBytes? {
      var bytes; ok, bytes := DecodeSized(s, f);
      if ok { v := if bytes == [] then ZeroValue(f) else Str(bytes); }
    } else {
      var w; ok, w := s.DecodeVarint();
      if ok {
        WordBound(old(s.Rest()));
        var n := NumberOf(f, w);
        if n.None? { return false, v; }
        v := Num(n.value);
      }
    }
  }

  // ---- Values and arrays -----------------------------------------------------------------------

  /** `pb_dec_submessage` and the scalar decoders. The substream is closed whether or not its contents were good, and
      the stream ends as much earlier as the substream did. */
  method DecodeValue(s: IStream, f: Field, base: Value) returns (ok: bool, v: Value)
    requires s.Valid() && WFField(f) && TypedValue(f, base)
    modifies s
    ensures s.Valid()
    ensures (if ok then Done(v, s.Rest()) else Fail) == old(DecValue(f, s.Rest(), base))
    ensures s.pos + s.bytesLeft == old(s.pos + s.bytesLeft - ValueLost(f, s.Rest(), base))
    ensures ok ==> s.pos + s.bytesLeft == old(s.pos + s.bytesLeft)
    decreases f, 0, 0
  {
    hide DecScalar, DecNoinit, TakeBlock;
    if !f.ltype.Submessage? {
      ok, v := DecodeScalar(s, f);
      return;
    }
    v := base;
    var sub; ok, sub := s.MakeSubstream();
    if !ok { return; }
    var m; ok, m := DecodeNoinit(sub, f.sub, base.slots);
    s.CloseSubstream(sub, sub.pos + sub.bytesLeft);
    if ok { v := Msg(m); }
  }

  /** The packed-array loop of `decode_static_field`. */
  method DecodePacked(sub: IStream, f: Field, head: seq<Value>) returns (ok: bool, items: seq<Value>)
    requires sub.Valid() && WFField(f) && f.Packable() && TypedItems(f, head)
    modifies sub
    ensures sub.Valid() && sub.pos + sub.bytesLeft == old(sub.pos + sub.bytesLeft)
    ensures (if ok then Some(items) else None) == old(DecPacked(f, sub.Rest(), head, f.arraySize))
    ensures sub.bytesLeft == PackedLeft(f, old(sub.Rest()), head, f.arraySize) && (ok ==> sub.bytesLeft == 0)
  {
    hide DecScalar, TypedValue;
    items := head;
    var status := true;
    while sub.bytesLeft > 0 && |items| < f.arraySize
      invariant sub.Valid() && sub.pos + sub.bytesLeft == old(sub.pos + sub.bytesLeft)
      invariant TypedItems(f, items)
      invariant old(DecPacked(f, sub.Rest(), head, f.arraySize)) == DecPacked(f, sub.Rest(), items, f.arraySize)
      invariant PackedLeft(f, old(sub.Rest()), head, f.arraySize) == PackedLeft(f, sub.Rest(), items, f.arraySize)
      decreases sub.bytesLeft
    {
      ghost var before := sub.Rest();
      var v; status, v := DecodeScalar(sub, f);
      if !status { return false, items; }
      ScalarProgress(f, before);
      items := items + [v];
    }
    ok := sub.bytesLeft == 0;
  }

  /** `decode_static_field` for a repeated field: a packed block or a single item. */
  method DecodeElems(s: IStream, f: Field, wire: nat, head: seq<Value>) returns (ok: bool, items: seq<Value>)
    requires s.Valid() && WFField(f) && TypedItems(f, head)
    modifies s
    ensures s.Valid()
    ensures (if ok then Done(items, s.Rest()) else Fail) == old(DecElems(f, wire, s.Rest(), head))
    ensures s.pos + s.bytesLeft == old(s.pos + s.bytesLeft - ElemsLost(f, wire, s.Rest(), head))
    ensures ok ==> s.pos + s.bytesLeft == old(s.pos + s.bytesLeft)
    decreases f, 1, 0
  {
    hide DecValue, DecPacked, TakeBlock, TypedItems, WFField, InitItem;
    items := head;
    if wire == WT_STRING && f.Packable() {
      var sub; ok, sub := s.MakeSubstream();
      if !ok { return; }
      ok, items := DecodePacked(sub, f, head);
      if sub.bytesLeft != 0 { return false, items; }
      s.CloseSubstream(sub, sub.pos);
    } else {
      if |head| >= f.arraySize { return false, head; }
      InitValueTyped(f);
      var v; ok, v := DecodeValue(s, f, InitItem(f));
      if ok { items := head + [v]; }
    }
  }

  // ---- The required-field bitmap ---------------------------------------------------------------

  /** Two 32-bit words that record which of the first 64 required fields have been seen. */
  ghost predicate Records(words: seq<nat>, seen: set<nat>) {
    |words| == 2 && forall w: nat, b: nat :: w < 2 ==> (Bit(words[w], b) <==> b < 32 && 32 * w + b in seen)
  }

  lemma RecordsNothing()
    ensures Records([0, 0], {})
  {
    forall b: nat ensures !Bit(0, b) { NoBitsInZero(b); }
  }

  /** Setting a bit with `|=` records one more field. */
  method MarkSeen(words: array<nat>, n: nat, ghost seen: set<nat>)
    requires words.Length == 2 && Records(words[..], seen) && n < MAX_REQUIRED
    modifies words
    ensures Records(words[..], seen + {n})
  {
    ghost var before := words[..];
    words[n / 32] := BitOr(words[n / 32], Pow2(n % 32));
    forall w: nat, b: nat | w < 2 ensures Bit(words[w], b) <==> b < 32 && 32 * w + b in seen + {n} {
      if w == n / 32 {
        BitOfBitOr(before[w], Pow2(n % 32), b);
        BitOfPow2(n % 32, b);
      }
    }
  }

  /** A word equals the mask of its lowest `r` bits exactly when those fields have been seen. */
  lemma WordTest(words: seq<nat>, seen: set<nat>, w: nat, r: nat)
    requires Records(words, seen) && w < 2 && r <= 32
    requires forall k :: k in seen && 32 * w <= k < 32 * w + 32 ==> k < 32 * w + r
    ensures words[w] == Pow2(r) - 1 <==> (forall k :: 32 * w <= k < 32 * w + r ==> k in seen)
  {
    if words[w] == Pow2(r) - 1 {
      forall k | 32 * w <= k < 32 * w + r ensures k in seen {
        BitOfMask(r, k - 32 * w);
        assert Bit(words[w], k - 32 * w);
      }
    }
    if forall k :: 32 * w <= k < 32 * w + r ==> k in seen {
      forall b: nat ensures Bit(words[w], b) <==> b < r {
        if b < r { assert 32 * w + b in seen; }
      }
      AllBitsIsMask(words[w], r);
    }
  }

  /** The final check of `pb_decode_noinit`: whole words first, then the remaining bits. */
  method AllRequiredSeen(words: array<nat>, iter: FieldIter, ghost seen: set<nat>) returns (ok: bool)
    requires words.Length == 2 && Records(words[..], seen) && iter.Valid()
    requires forall k :: k in seen ==> k < CheckedRequired(iter.fields)
    modifies iter
    ensures ok <==> forall k :: 0 <= k < CheckedRequired(iter.fields) ==> k in seen
  {
    var count := CountRequired(iter);
    if count > MAX_REQUIRED { count := MAX_REQUIRED; }
    var i := 0;
    while i < count / 32
      invariant 0 <= i <= count / 32
      invariant forall k :: 0 <= k < 32 * i ==> k in seen
    {
      WordTest(words[..], seen, i, 32);
      FullMask();
      if words[i] != 0xFFFF_FFFF { return false; }
      i := i + 1;
    }
    if count % 32 != 0 {
      WordTest(words[..], seen, count / 32, count % 32);
      if words[count / 32] != Pow2(count % 32) - 1 { return false; }
    }
    return true;
  }

  lemma FullMask()
    ensures Pow2(32) - 1 == 0xFFFF_FFFF
  {
    Shl32(1);
  }

  /** The number of required fields, found by walking the iterator to the end of the table. */
  method CountRequired(iter: FieldIter) returns (count: nat)
    requires iter.Valid()
    modifies iter
    ensures iter.Valid() && count == RequiredBefore(iter.fields, |iter.fields|)
  {
    ghost var start := iter.pos;
    ghost var last := start;
    var lastRequired;
    while true
      invariant iter.Valid() && iter.pos >= start
      decreases |iter.fields| - iter.pos
    {
      last := iter.pos;
      count := iter.requiredIndex;
      lastRequired := iter.pos < |iter.fields| && iter.fields[iter.pos].htype.Required?;
      var more := iter.Next();
      if !more { break; }
    }
    if lastRequired { count := count + 1; }
  }

  // ---- Messages --------------------------------------------------------------------------------

  /** The record of a repeated field, with the fixed-count bookkeeping of `pb_decode_noinit`. */
  method DecodeRepeated(s: IStream, fs: seq<Field>, i: nat, wire: nat, st: DecState) returns (ok: bool, st': DecState)
    requires s.Valid() && WFFields(fs) && WFState(fs, st) && i < |fs| && fs[i].htype.Repeated?
    modifies s
    ensures s.Valid()
    ensures (if ok then Done(st', s.Rest()) else Fail) == old(DecRepeated(fs, i, wire, s.Rest(), st))
    ensures FixedCountReady(fs, i, st) ==>
      s.pos + s.bytesLeft == old(s.pos + s.bytesLeft - ElemsLost(fs[i], wire, s.Rest(), HeadOf(fs, i, st)))
    ensures !FixedCountReady(fs, i, st) ==> s.pos + s.bytesLeft == old(s.pos + s.bytesLeft)
    ensures ok ==> s.pos + s.bytesLeft == old(s.pos + s.bytesLeft)
    decreases fs, 0, 0
  {
    hide DecElems, WFState, TypedMsg, TypedItems, TypedSlot;
    st' := st;
    StateShape(fs, st);
    assert WFField(fs[i]);
    if !FixedCountReady(fs, i, st) { return false, st; }
    var head; ok, head := DecodeElems(s, fs[i], wire, HeadOf(fs, i, st));
    if !ok { return; }
    ElemsBounded(fs[i], wire, old(s.Rest()), HeadOf(fs, i, st));
    var slot := ManySlot(fs, i, ItemsOf(fs, i, st.msg), head);
    if fs[i].FixedCount() {
      st' := DecState(st.msg[i := slot], st.seen, Some(i), |head|);
    } else {
      st' := st.(msg := st.msg[i := slot]);
    }
  }

  lemma ElemsBounded(f: Field, wire: nat, bs: seq<byte>, head: seq<Value>)
    requires WFField(f) && TypedItems(f, head) && DecElems(f, wire, bs, head).Done?
    ensures var r := DecElems(f, wire, bs, head).value; TypedItems(f, r) && (r == head || |r| <= f.arraySize)
  {}

  /** One record: a field of the table, found by the iterator, or something to skip. `words` is the bitmap
      behind `st.seen`. */
  method DecodeRecord(s: IStream, iter: FieldIter, words: array<nat>, tag: nat, wire: nat, st: DecState)
    returns (ok: bool, st': DecState)
    requires s.Valid() && iter.Valid() && WFFields(iter.fields) && WFState(iter.fields, st)
    requires words.Length == 2 && Records(words[..], st.seen)
    modifies s, iter, words
    ensures s.Valid() && iter.Valid()
    ensures (if ok then Done(st', s.Rest()) else Fail) == old(DecRecord(iter.fields, tag, wire, s.Rest(), st))
    ensures s.pos + s.bytesLeft == old(s.pos + s.bytesLeft - RecordLost(iter.fields, tag, wire, s.Rest(), st))
    ensures ok ==> s.pos + s.bytesLeft == old(s.pos + s.bytesLeft) && Records(words[..], st'.seen)
    decreases iter.fields, 2, 0
  {
    hide DecRepeated, DecVarint32, SkipPayload, WFState, WFFields, Records, DecValue, FilledSlot, BaseOf;
    var fs := iter.fields;
    st' := st;
    var found := iter.Find(tag);
    FoundField(fs, iter.pos, tag, found);
    if !found {
      ok := s.SkipField(wire);
    } else if fs == [] {
      var dropped; ok, dropped := s.DecodeVarint32();
    } else if fs[iter.pos].htype.Repeated? {
      ok, st' := DecodeRepeated(s, fs, iter.pos, wire, st);
      RepeatedKeepsSeen(fs, iter.pos, wire, old(s.Rest()), st);
    } else {
      var i := iter.pos;
      if fs[i].htype.Required? && iter.requiredIndex < MAX_REQUIRED {
        MarkSeen(words, iter.requiredIndex, st.seen);
      }
      ok, st' := DecodeSingle(s, fs, i, wire, st);
      SingleSees(fs, i, wire, old(s.Rest()), st);
    }
  }

  /** The record of a singular field or a union member. */
  method DecodeSingle(s: IStream, fs: seq<Field>, i: nat, wire: nat, st: DecState) returns (ok: bool, st': DecState)
    requires s.Valid() && WFFields(fs) && WFState(fs, st) && i < |fs| && !fs[i].htype.Repeated?
    modifies s
    ensures s.Valid()
    ensures (if ok then Done(st', s.Rest()) else Fail) == old(DecKnown(fs, i, wire, s.Rest(), st))
    ensures s.pos + s.bytesLeft == old(s.pos + s.bytesLeft - ValueLost(fs[i], s.Rest(), BaseOf(fs, i, st.msg)))
    ensures ok ==> s.pos + s.bytesLeft == old(s.pos + s.bytesLeft)
    decreases fs, 1, 0
  {
    hide DecValue, WFState, TypedMsg, BaseOf, FilledSlot, SeenWith;
    st' := st;
    StateShape(fs, st);
    var base := BaseOf(fs, i, st.msg);
    var v; ok, v := DecodeValue(s, fs[i], base);
    if !ok { return; }
    ValueTyped(fs[i], old(s.Rest()), base);
    st' := st.(msg := st.msg[Home(fs, i) := FilledSlot(fs, i, v)], seen := SeenWith(fs, i, st.seen));
  }

  lemma SingleSees(fs: seq<Field>, i: nat, wire: nat, bs: seq<byte>, st: DecState)
    requires WFFields(fs) && WFState(fs, st) && i < |fs| && !fs[i].htype.Repeated?
    ensures var r := DecKnown(fs, i, wire, bs, st); r.Done? ==> r.value.seen == SeenWith(fs, i, st.seen)
  {}

  lemma ValueTyped(f: Field, bs: seq<byte>, base: Value)
    requires WFField(f) && TypedValue(f, base) && DecValue(f, bs, base).Done?
    ensures TypedValue(f, DecValue(f, bs, base).value)
  {}

  lemma RepeatedKeepsSeen(fs: seq<Field>, i: nat, wire: nat, bs: seq<byte>, st: DecState)
    requires WFFields(fs) && WFState(fs, st) && i < |fs| && fs[i].htype.Repeated?
    ensures var r := DecRepeated(fs, i, wire, bs, st); r.Done? ==> r.value.seen == st.seen
  {}

  /** On a table with distinct tags the iterator finds the field the tag stands for. */
  lemma FoundField(fs: seq<Field>, i: nat, tag: nat, found: bool)
    requires WFFields(fs) && (i < |fs| || (fs == [] && i == 0))
    requires found ==> Matches(fs, i, tag)
    requires !found ==> forall j :: 0 <= j < |fs| ==> !Matches(fs, j, tag)
    requires found <==> if fs == [] then tag == 0 else exists j :: 0 <= j < |fs| && Matches(fs, j, tag)
    ensures found && fs != [] ==> FindTag(fs, tag) == i && WFField(fs[i])
    ensures !found ==> FindTag(fs, tag) == |fs| && !(fs == [] && tag == 0)
  {
    if found && fs != [] { FindTagOf(fs, i); }
    if !found && FindTag(fs, tag) < |fs| { assert Matches(fs, FindTag(fs, tag), tag); }
  }

  lemma TagProgress(bs: seq<byte>)
    ensures DecTag(bs).Tag? ==> |DecTag(bs).rest| < |bs| && DecTag(bs).wire < 8
  {}

  lemma RecordTyped(fs: seq<Field>, tag: nat, wire: nat, bs: seq<byte>, st: DecState)
    requires WFFields(fs) && WFState(fs, st) && DecRecord(fs, tag, wire, bs, st).Done?
    ensures WFState(fs, DecRecord(fs, tag, wire, bs, st).value) && |DecRecord(fs, tag, wire, bs, st).rest| < |bs|
  {}

  /** The checks after the field loop. */
  method Finish(words: array<nat>, iter: FieldIter, fs: seq<Field>, st: DecState) returns (ok: bool)
    requires words.Length == 2 && Records(words[..], st.seen) && iter.Valid() && iter.fields == fs && WFState(fs, st)
    modifies iter
    ensures ok == Complete(fs, st)
  {
    if st.fixedField.Some? && st.fixedCount != fs[st.fixedField.value].arraySize { return false; }
    ok := AllRequiredSeen(words, iter, st.seen);
  }

  /** `pb_decode_noinit` */
  method DecodeNoinit(s: IStream, fs: seq<Field>, m: seq<Slot>) returns (ok: bool, m': seq<Slot>)
    requires s.Valid() && WFFields(fs) && TypedMsg(fs, m)
    modifies s
    ensures s.Valid()
    ensures (if ok then Some((m', s.Rest())) else None) == old(DecNoinit(fs, s.Rest(), m))
    ensures s.pos + s.bytesLeft == old(s.pos + s.bytesLeft - NoinitLost(fs, s.Rest(), m))
    ensures ok ==> s.pos + s.bytesLeft == old(s.pos + s.bytesLeft)
    decreases fs, 4, 0
  {
    hide DecRecord, DecTag, TypedMsg, WFFields, Records;
    TagsNonzero(fs);
    var iter := new FieldIter.Begin(fs);
    var words: array<nat> := new nat[2](_ => 0);
    assert words[..] == [0, 0];
    RecordsNothing();
    var st := Start(m);
    m' := m;
    while s.bytesLeft > 0
      invariant s.Valid() && iter.Valid() && fresh(iter) && fresh(words) && iter.fields == fs
      invariant words.Length == 2 && WFState(fs, st) && Records(words[..], st.seen)
      invariant s.pos + s.bytesLeft == old(s.pos + s.bytesLeft)
      invariant old(DecFields(fs, s.Rest(), Start(m))) == DecFields(fs, s.Rest(), st)
      invariant old(FieldsLost(fs, s.Rest(), Start(m))) == FieldsLost(fs, s.Rest(), st)
      decreases s.bytesLeft
    {
      ghost var before := s.Rest();
      var tagged, eof, tag, wire := s.DecodeTag();
      TagProgress(before);
      if !tagged {
        if !eof { return false, m; }
        ok := Finish(words, iter, fs, st);
        if ok { m' := st.msg; }
        return;
      }
      ghost var after, st0 := s.Rest(), st;
      ok, st := DecodeRecord(s, iter, words, tag, wire, st);
      if !ok { return; }
      RecordTyped(fs, tag, wire, after, st0);
    }
    ok := Finish(words, iter, fs, st);
    if ok { m' := st.msg; }
  }

  /** `pb_decode`: defaults first, then the fields. */
  method DecodeMessage(s: IStream, fs: seq<Field>) returns (ok: bool, m: seq<Slot>)
    requires s.Valid() && WFFields(fs)
    modifies s
    ensures s.Valid()
    ensures (if ok then Some((m, s.Rest())) else None) == old(DecMsg(fs, s.Rest()))
    ensures s.pos + s.bytesLeft == old(s.pos + s.bytesLeft - MsgLost(fs, s.Rest()))
    ensures ok ==> TypedMsg(fs, m) && s.pos + s.bytesLeft == old(s.pos + s.bytesLeft)
  {
    InitMsgTyped(fs);
    ok, m := DecodeNoinit(s, fs, InitMsg(fs));
  }
}
