/** Inputs that show where the laws of the codec stop. */
module Limits {
  import opened Bits
  import opened Varint
  import opened PbInput
  import opened Descriptor
  import opened FieldIterator
  import opened Encoding
  import opened Decoding
  import opened Unclosed
  import opened Packed
  import opened RoundTrip
  import opened MessageRoundTrip

  /** A required string in a buffer of three bytes. */
  function NameTable(): seq<Field> {
    [Field(1, LType.String, Required, Static, 0, 0, 3, 0, [], None)]
  }

  /** "abc" without a terminator. */
  function FullName(): seq<Slot> {
    [One(Str([97, 98, 99]))]
  }

  /** A string that fills its buffer is encoded, but its encoding is not decoded. */
  lemma FullStringIsNotDecoded()
    ensures WFFields(NameTable()) && TypedMsg(NameTable(), FullName())
    ensures EncMsg(NameTable(), FullName()) == Some([10, 3, 97, 98, 99])
    ensures DecMsg(NameTable(), [10, 3, 97, 98, 99]) == None
  {
    var fs, slots := NameTable(), FullName();
    var f, v := fs[0], Str([97, 98, 99]);
    assert WFField(f) && WFFields(fs);
    assert TypedSlot(fs, 0, slots[0]) && TypedMsg(fs, slots);
    assert Present(fs, slots, 0) == Some(v);
    assert EncScalar(f, v) == Some([3] + v.bytes) && [3] + v.bytes == [3, 97, 98, 99];
    assert EncValue(f, v) == Some([3, 97, 98, 99]);
    assert FieldTag(f) == [10] && [10] + [3, 97, 98, 99] == [10, 3, 97, 98, 99];
    assert EncField(fs, slots, 0) == Some([10, 3, 97, 98, 99]);
    assert EncUpTo(fs, slots, 0) == Some([]) && [] + [10, 3, 97, 98, 99] == [10, 3, 97, 98, 99];
    assert EncUpTo(fs, slots, 1) == Some([10, 3, 97, 98, 99]);
    assert !FitsField(fs, slots, 0);
    assert !FitsMsg(fs, slots);
    RoundTripExactly(fs, slots);
  }

  /** A fixed-count array of one boolean. */
  function PairTable(): seq<Field> {
    [Field(1, LType.Bool, Repeated, Static, 0, 0, 1, 1, [], None)]
  }

  /** Two messages that decode one after the other, but not as one: the second goes back to the fixed-count array the
      first ended with, and a full array accepts no further item. */
  lemma FixedCountsDoNotMerge()
    ensures WFFields(PairTable()) && TypedMsg(PairTable(), [Many([Num(0)])]) && TypedMsg(PairTable(), [Many([Num(1)])])
    ensures DecNoinit(PairTable(), [8, 1], [Many([Num(0)])]) == Some(([Many([Num(1)])], []))
    ensures DecNoinit(PairTable(), [8, 1], [Many([Num(1)])]) == Some(([Many([Num(1)])], []))
    ensures DecNoinit(PairTable(), [8, 1] + [8, 1], [Many([Num(0)])]) == None
  {
    var fs := PairTable();
    var f := fs[0];
    assert WFField(f) && WFFields(fs);
    OneItem(0);
    OneItem(1);
    TwoItems();
  }

  lemma OneItem(n: nat)
    requires n <= 1
    ensures WFFields(PairTable()) && TypedMsg(PairTable(), [Many([Num(n)])])
    ensures DecNoinit(PairTable(), [8, 1], [Many([Num(n)])]) == Some(([Many([Num(1)])], []))
  {
    hide DecFields;
    var fs := PairTable();
    var f, m := fs[0], [Many([Num(n)])];
    assert WFField(f) && WFFields(fs) && TypedValue(f, Num(n)) && TypedItems(f, [Num(n)]) && TypedSlot(fs, 0, m[0]);
    var st := Start(m);
    assert DecScalar(f, [1]) == Done(Num(1), []);
    DecRecordsAll(fs, 0, WT_VARINT, [[1]], [Num(1)], st);
    assert Records(f, WT_VARINT, [[1]]) == [8, 1];
    assert HeadOf(fs, 0, st) == [] && [] + [Num(1)] == [Num(1)];
    var st' := Received(fs, 0, st, [Num(1)]);
    assert st'.msg == [Many([Num(1)])] by { assert [Num(1)] + [Num(n)][1..] == [Num(1)]; }
    assert RequiredBefore(fs, 1) == 0;
    assert Complete(fs, st');
  }

  lemma TwoItems()
    ensures WFFields(PairTable()) && TypedMsg(PairTable(), [Many([Num(0)])])
    ensures DecNoinit(PairTable(), [8, 1] + [8, 1], [Many([Num(0)])]) == None
  {
    hide DecFields;
    var fs := PairTable();
    var f, m := fs[0], [Many([Num(0)])];
    assert WFField(f) && WFFields(fs) && TypedItems(f, [Num(0)]) && TypedSlot(fs, 0, m[0]);
    assert DecScalar(f, [1]) == Done(Num(1), []);
    DecRecordsAll(fs, 0, WT_VARINT, [[1], [1]], [Num(1), Num(1)], Start(m));
    assert Records(f, WT_VARINT, [[1]]) == [8, 1];
    assert Records(f, WT_VARINT, [[1], [1]]) == [8, 1] + [8, 1] by { assert [[1], [1]][1..] == [[1 as byte]]; }
  }

  /** An optional number without has-flag, with the explicit default 5. */
  function DefaultTable(): seq<Field> {
    [Field(1, LType.UVarint, Optional, Static, 0, 0, 4, 0, [], Some(Num(5)))]
  }

  /** A zero in such a field is skipped as a default and comes back as 5, which is written the next time. */
  lemma HiddenDefaultComesBack()
    ensures WFFields(DefaultTable()) && TypedMsg(DefaultTable(), [One(Num(0))])
    ensures EncMsg(DefaultTable(), [One(Num(0))]) == Some([])
    ensures DecMsg(DefaultTable(), []) == Some(([One(Num(5))], []))
    ensures TypedMsg(DefaultTable(), [One(Num(5))]) && EncMsg(DefaultTable(), [One(Num(5))]) == Some([8, 5])
  {
    var fs, slots := DefaultTable(), [One(Num(0))];
    var f := fs[0];
    assert WFField(f) && WFFields(fs);
    assert TypedSlot(fs, 0, slots[0]) && TypedMsg(fs, slots);
    assert Present(fs, slots, 0) == None;
    assert EncField(fs, slots, 0) == Some([]);
    assert EncUpTo(fs, slots, 0) == Some([]);
    var none: seq<byte> := [];
    assert none + none == none;
    assert EncUpTo(fs, slots, 1) == Cat(Some(none), Some(none));
    assert InitSlot(fs, 0) == One(Num(5));
    assert InitMsg(fs) == [One(Num(5))];
    NothingLeft(fs, Start(InitMsg(fs)));
    FiveIsWritten();
  }

  lemma FiveIsWritten()
    ensures WFFields(DefaultTable()) && TypedMsg(DefaultTable(), [One(Num(5))])
    ensures EncMsg(DefaultTable(), [One(Num(5))]) == Some([8, 5])
  {
    var fs, slots := DefaultTable(), [One(Num(5))];
    var f := fs[0];
    assert WFField(f) && WFFields(fs);
    assert TypedSlot(fs, 0, slots[0]) && TypedMsg(fs, slots);
    assert Present(fs, slots, 0) == Some(Num(5));
    assert EncValue(f, Num(5)) == Some([5]);
    assert FieldTag(f) == [8] && [8] + [5] == [8, 5];
    assert EncField(fs, slots, 0) == Some([8, 5]);
    assert EncUpTo(fs, slots, 0) == Some([]) && [] + [8, 5] == [8, 5];
    assert EncUpTo(fs, slots, 1) == Some([8, 5]);
  }

  /** A counted array of up to `n` unsigned numbers of one byte. */
  function ByteArray(n: nat): Field
    requires n <= PB_SIZE_MAX
  {
    Field(1, LType.UVarint, Repeated, Static, 0, 4, 1, n, [], None)
  }

  /** An item that does not fit, with a byte behind it: the block is left open and the stream loses all of it. */
  lemma BadItemLosesBlock()
    ensures WFField(ByteArray(5)) && DecElems(ByteArray(5), WT_STRING, [3, 0x80, 2, 1, 7, 7], []) == Fail
    ensures ElemsLost(ByteArray(5), WT_STRING, [3, 0x80, 2, 1, 7, 7], []) == 3
  {
    var f, block := ByteArray(5), [0x80 as byte, 2, 1];
    OneBlock(3, [3, 0x80, 2, 1, 7, 7]);
    assert [0x80 as byte, 2, 1, 7, 7][..3] == block;
    assert VarintLen(block) == 2 by { assert block[1..] == [2, 1]; assert [2 as byte, 1][1..] == [1]; }
    assert Groups(block[..2]) == 256 by {
      assert block[..2][1..] == [2] && [2 as byte][1..] == [];
    }
    assert DecVarint(block) == Done(256, [1]) by { assert block[2..] == [1]; }
    assert NumberOf(f, 256) == None;
    assert DecScalar(f, block) == Fail;
  }

  /** A truncated item uses the block up: decoding fails too, but the block is closed. */
  lemma TruncatedItemKeepsStream()
    ensures WFField(ByteArray(5)) && DecElems(ByteArray(5), WT_STRING, [2, 1, 0x80, 7, 7], []) == Fail
    ensures ElemsLost(ByteArray(5), WT_STRING, [2, 1, 0x80, 7, 7], []) == 0
  {
    var f, block, last := ByteArray(5), [1 as byte, 0x80], [0x80 as byte];
    OneBlock(2, [2, 1, 0x80, 7, 7]);
    assert [1 as byte, 0x80, 7, 7][..2] == block;
    assert Groups(block[..1]) == 1 by { assert block[..1][1..] == []; }
    assert DecVarint(block) == Done(1, last) by { assert block[1..] == last; }
    assert NumberOf(f, 1) == Some(1);
    assert DecScalar(f, block) == Done(Num(1), last);
    assert VarintLen(last) == 0 by { assert last[1..] == []; }
    assert DecScalar(f, last) == Fail;
    assert [] + [Num(1)] == [Num(1)];
    assert DecPacked(f, last, [Num(1)], 5) == None && PackedLeft(f, last, [Num(1)], 5) == 0;
  }

  /** An array that is full leaves the block open as well. */
  lemma OverflowLosesBlock()
    ensures WFField(ByteArray(0)) && DecElems(ByteArray(0), WT_STRING, [1, 1, 7], []) == Fail
    ensures ElemsLost(ByteArray(0), WT_STRING, [1, 1, 7], []) == 1
  {
    OneBlock(1, [1, 1, 7]);
    assert [1 as byte, 7][..1] == [1];
  }

  lemma OneBlock(n: nat, bs: seq<byte>)
    requires 0 < n < 128 && n < |bs| && bs[0] == n
    ensures TakeBlock(bs) == Done(bs[1..][..n], bs[1..][n..])
  {}

  /** 2^63 + 2^31 is no 32-bit number and no sign-extended one, but its varint passes the 32-bit decoder. */
  lemma FastPathAcceptsMore()
    ensures DecVarint32(EncVarint(0x8000_0000_8000_0000) + []) == Done(0x8000_0000, [])
  {
    hide DecVarint32, EncVarint, Low32;
    var v := 0x8000_0000_8000_0000;
    Varint32RoundTrip(v, []);
    Low32Plus(0x8000_0000, 0x8000_0000);
    SmallLow32(0x8000_0000);
    assert Drop(v, 5) == 0x1000_0000 by { FiveGroups(v); }
    assert SignGroups(0x80, 1);
    assert SignGroups(0x4000, 2);
    assert SignGroups(0x20_0000, 3);
  }

  lemma FiveGroups(v: nat)
    ensures Drop(v, 5) == v / 128 / 128 / 128 / 128 / 128
  {
    var a := v / 128;
    var b := a / 128;
    assert Drop(v, 5) == Drop(a, 4) == Drop(b, 3);
    assert Drop(b, 3) == Drop(b / 128, 2) == Drop(b / 128 / 128, 1);
  }
}
