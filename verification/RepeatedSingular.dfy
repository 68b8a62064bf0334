/** What becomes of a singular field that occurs more than once: submessages merge, everything else is replaced, and a
    union forgets its former member (section "Last One Wins" of the Protocol Buffers encoding specification). */
module RepeatedSingular {
  import opened Bits
  import opened PbInput
  import opened Descriptor
  import opened Encoding
  import opened Decoding
  import opened Merge
  import opened MessageRoundTrip

  /** After a record, the field holds what was decoded, and the next record starts from there. */
  lemma BaseAfter(fs: seq<Field>, i: nat, st: DecState, v: Value)
    requires WFFields(fs) && WFState(fs, st) && i < |fs| && !fs[i].htype.Repeated? && TypedValue(fs[i], v)
    ensures BaseOf(fs, i, Filled(fs, i, st, v).msg) == v
  {
    hide TypedValue, WFField;
    StateShape(fs, st);
    FindTagOf(fs, i);
  }

  lemma FilledTwice(fs: seq<Field>, i: nat, st: DecState, v: Value, w: Value)
    requires WFFields(fs) && WFState(fs, st) && i < |fs| && !fs[i].htype.Repeated?
    requires TypedValue(fs[i], v) && TypedValue(fs[i], w)
    ensures Filled(fs, i, Filled(fs, i, st, v), w) == Filled(fs, i, st, w)
  {
    hide TypedValue, WFField;
    var h := Home(fs, i);
    StateShape(fs, st);
    assert st.msg[h := FilledSlot(fs, i, v)][h := FilledSlot(fs, i, w)] == st.msg[h := FilledSlot(fs, i, w)];
  }

  predicate SingularSubmessage(fs: seq<Field>, i: nat) {
    i < |fs| && fs[i].ltype.Submessage? && !fs[i].htype.Repeated?
  }

  /** The bytes of one record of the submessage field `i` with the given body. */
  function SubRecord(fs: seq<Field>, i: nat, body: seq<byte>): seq<byte>
    requires i < |fs|
  {
    FieldTag(fs[i]) + Delimited(body)
  }

  /** The struct a record of field `i` is decoded into. */
  function Held(fs: seq<Field>, i: nat, st: DecState): (slots: seq<Slot>)
    requires WFFields(fs) && WFState(fs, st) && SingularSubmessage(fs, i)
    ensures WFFields(fs[i].sub) && TypedMsg(fs[i].sub, slots)
  {
    BaseOf(fs, i, st.msg).slots
  }

  lemma OneSubRecord(fs: seq<Field>, i: nat, x: seq<byte>, rest: seq<byte>, st: DecState)
    requires WFFields(fs) && WFState(fs, st) && SingularSubmessage(fs, i) && |x| < TWO32
    ensures var r := DecNoinit(fs[i].sub, x, Held(fs, i, st));
      && (r.Some? ==> TypedValue(fs[i], Msg(r.value.0)))
      && DecFields(fs, SubRecord(fs, i, x) + rest, st) ==
           if r.None? then Bad else DecFields(fs, rest, Filled(fs, i, st, Msg(r.value.0)))
  {
    hide DecNoinit, DecFields, Filled, TakeBlock, WFState, FieldTag;
    assert WFField(fs[i]);
    BlockRead(x, rest);
    SingleRecord(fs, i, Delimited(x), rest, st);
  }

  lemma FieldsGood(fs: seq<Field>, bs: seq<byte>, m: seq<Slot>)
    requires WFFields(fs) && TypedMsg(fs, m)
    ensures WFState(fs, Start(m)) && (DecNoinit(fs, bs, m).Some? ==> DecFields(fs, bs, Start(m)).Good?)
  {}

  /** Two records of a singular submessage are one record with both bodies: if the first body decodes without a zero tag
      and the second then decodes into the result, exactly when the second does not go back to the fixed-count array
      the first ended with. Without required fields the two agree on failure as well. */
  lemma SubmessagesMerge(fs: seq<Field>, i: nat, x: seq<byte>, y: seq<byte>, rest: seq<byte>, st: DecState)
    requires WFFields(fs) && WFState(fs, st) && SingularSubmessage(fs, i) && |x| + |y| < TWO32
    ensures var sub, m := fs[i].sub, Held(fs, i, st);
      DecNoinit(sub, x, m).Some? && !DecFields(sub, x, Start(m)).ended ==>
        var merged := DecNoinit(sub, y, DecNoinit(sub, x, m).value.0);
        var back := BackToFixed(sub, DecFields(sub, x, Start(m)).st, y);
        var two := DecFields(fs, SubRecord(fs, i, x) + (SubRecord(fs, i, y) + rest), st);
        var one := DecFields(fs, SubRecord(fs, i, x + y) + rest, st);
        && (!back && (merged.Some? || NoRequired(sub)) ==> two == one)
        && (back && merged.Some? ==> one == Bad)
        && (merged.Some? ==> two == DecFields(fs, rest, Filled(fs, i, st, Msg(merged.value.0))))
  {
    hide DecNoinit, DecFields, Filled, WFState, WFFields, TypedMsg, SubRecord, BackToFixed, NoRequired;
    var f, m := fs[i], Held(fs, i, st);
    var rx := DecNoinit(f.sub, x, m);
    FieldsGood(f.sub, x, m);
    if rx.Some? && !DecFields(f.sub, x, Start(m)).ended {
      ConcatenationIsMerge(f.sub, x, y, m);
      OneSubRecord(fs, i, x, SubRecord(fs, i, y) + rest, st);
      OneSubRecord(fs, i, x + y, rest, st);
      var v := Msg(rx.value.0);
      var st' := Filled(fs, i, st, v);
      BaseAfter(fs, i, st, v);
      OneSubRecord(fs, i, y, rest, st');
      var ry := DecNoinit(f.sub, y, rx.value.0);
      if ry.Some? { FilledTwice(fs, i, st, v, Msg(ry.value.0)); }
    }
  }

  /** Of two records of a field that is no submessage, the last one wins. */
  lemma LastOneWins(fs: seq<Field>, i: nat, x: seq<byte>, y: seq<byte>, rest: seq<byte>, st: DecState)
    requires WFFields(fs) && WFState(fs, st) && i < |fs| && !fs[i].htype.Repeated? && !fs[i].ltype.Submessage?
    requires WFField(fs[i]) && DecScalar(fs[i], x).Done? && DecScalar(fs[i], x).rest == []
    requires DecScalar(fs[i], y).Done? && DecScalar(fs[i], y).rest == []
    ensures var w := DecScalar(fs[i], y).value;
      && TypedValue(fs[i], w)
      && DecFields(fs, FieldTag(fs[i]) + x + (FieldTag(fs[i]) + y + rest), st)
         == DecFields(fs, FieldTag(fs[i]) + y + rest, st)
         == DecFields(fs, rest, Filled(fs, i, st, w))
  {
    hide DecFields, Filled, WFState, WFFields, FieldTag, DecScalar;
    var f, tail := fs[i], FieldTag(fs[i]) + y + rest;
    var v, w := DecScalar(f, x).value, DecScalar(f, y).value;
    DecScalarAppend(f, x, tail);
    DecScalarAppend(f, y, rest);
    assert [] + tail == tail && [] + rest == rest;
    ScalarProgress(f, x);
    ScalarProgress(f, y);
    SingleRecord(fs, i, x, tail, st);
    SingleRecord(fs, i, y, rest, st);
    SingleRecord(fs, i, y, rest, Filled(fs, i, st, v));
    FilledTwice(fs, i, st, v, w);
  }

  /** A record of another member of a union starts from that member's defaults, whatever the former member held, and the
      union then holds the new member. */
  lemma UnionSwitches(fs: seq<Field>, i: nat, j: nat, v: Value, body: seq<byte>, rest: seq<byte>, st: DecState)
    requires WFFields(fs) && WFState(fs, st) && i < |fs| && j < |fs| && i != j && fs[i].htype.Oneof?
    requires fs[j].htype.Oneof?
    requires Home(fs, i) == Home(fs, j) && st.msg[Home(fs, i)] == Union(fs[i].tag, v) && WFField(fs[j])
    requires TypedValue(fs[j], InitValue(fs[j]))
    requires var r := DecValue(fs[j], body + rest, InitValue(fs[j])); r.Done? ==> r.rest == rest
    ensures var r := DecValue(fs[j], body + rest, InitValue(fs[j]));
      && (r.Done? ==> Filled(fs, j, st, r.value).msg == st.msg[Home(fs, j) := Union(fs[j].tag, r.value)])
      && DecFields(fs, FieldTag(fs[j]) + body + rest, st) ==
           if r.Fail? then Bad else DecFields(fs, rest, Filled(fs, j, st, r.value))
  {
    hide DecValue, DecFields, FieldTag, TypedValue, InitValue, WFField;
    StateShape(fs, st);
    FindTagOf(fs, i);
    FindTagOf(fs, j);
    assert BaseOf(fs, j, st.msg) == InitValue(fs[j]);
    SingleRecord(fs, j, body, rest, st);
  }
}
