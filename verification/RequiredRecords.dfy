/** The required-field check as the input shows it: a message is accepted only if it holds a record of each of its first
    64 required fields. */
module RequiredRecords {
  import opened Bits
  import opened PbInput
  import opened Descriptor
  import opened FieldIterator
  import opened Decoding
  import opened Merge

  /** The input holds a record of field `i` before its end or a zero tag. */
  predicate HoldsRecord(fs: seq<Field>, bs: seq<byte>, i: nat)
    requires WFFields(fs)
    decreases |bs|
  {
    && bs != [] && i < |fs| && DecTag(bs).Tag?
    && (FindTag(fs, DecTag(bs).tag) == i ||
        var end := RecordEnd(fs, DecTag(bs).tag, DecTag(bs).wire, DecTag(bs).rest);
        end.Some? && HoldsRecord(fs, end.value, i))
  }

  /** Field `i` is the `k`-th required field, counted from zero, and one of those that are checked. */
  predicate Checked(fs: seq<Field>, i: nat, k: nat) {
    i < |fs| && fs[i].htype.Required? && RequiredBefore(fs, i) == k < 64
  }

  lemma {:induction false} FieldWithIndex(fs: seq<Field>, n: nat, k: nat)
    requires n <= |fs| && k < RequiredBefore(fs, n) && k < 64
    ensures exists i :: Checked(fs, i, k)
  {
    if k < RequiredBefore(fs, n - 1) {
      FieldWithIndex(fs, n - 1, k);
    } else {
      assert Checked(fs, n - 1, k);
    }
  }

  lemma OneFieldPerIndex(fs: seq<Field>, i: nat, j: nat, k: nat)
    requires Checked(fs, i, k) && Checked(fs, j, k)
    ensures i == j
  {
    if i < j { RequiredStrict(fs, i, j); }
    if j < i { RequiredStrict(fs, j, i); }
  }

  /** What one record adds to the required fields seen. */
  lemma RecordSees(fs: seq<Field>, tag: nat, wire: nat, bs: seq<byte>, st: DecState, k: nat)
    requires WFFields(fs) && WFState(fs, st) && DecRecord(fs, tag, wire, bs, st).Done?
    ensures k in DecRecord(fs, tag, wire, bs, st).value.seen <==> k in st.seen || Checked(fs, FindTag(fs, tag), k)
  {
    hide WFFields, WFField, WFState, DecElems, DecValue, BaseOf, FilledSlot, ItemsOf, HeadOf, ManySlot, SkipPayload,
      RequiredBefore, FindTag, FixedCountReady;
    var i := FindTag(fs, tag);
    FindTagRange(fs, tag);
    StateShape(fs, st);
    if i < |fs| {
      if fs[i].htype.Repeated? {
        assert DecRecord(fs, tag, wire, bs, st) == DecRepeated(fs, i, wire, bs, st);
      } else {
        assert DecRecord(fs, tag, wire, bs, st) == DecKnown(fs, i, wire, bs, st);
      }
    }
  }

  /** The field loop has seen a required field exactly when the input holds a record of it. */
  lemma {:induction false} SeenMeansHeld(fs: seq<Field>, bs: seq<byte>, st: DecState, i: nat, k: nat)
    requires WFFields(fs) && WFState(fs, st) && Checked(fs, i, k)
    ensures DecFields(fs, bs, st).Good? ==>
      (k in DecFields(fs, bs, st).st.seen <==> k in st.seen || HoldsRecord(fs, bs, i))
    decreases |bs|
  {
    hide WFFields, WFState, DecRecord, DecTag, RecordEnd, FindTag;
    if bs != [] && DecTag(bs).Tag? && DecFields(fs, bs, st).Good? {
      var Tag(tag, wire, rest) := DecTag(bs);
      var r := DecRecord(fs, tag, wire, rest, st);
      RecordSees(fs, tag, wire, rest, st, k);
      if Checked(fs, FindTag(fs, tag), k) { OneFieldPerIndex(fs, i, FindTag(fs, tag), k); }
      RecordEndAgrees(fs, tag, wire, rest, st);
      SeenMeansHeld(fs, r.rest, r.value, i, k);
    }
  }

  /** Once its fields have been decoded, a message is accepted if and only if no fixed-count array was left half full
      and the input holds a record of each of the first 64 required fields. */
  lemma AcceptedExactly(fs: seq<Field>, bs: seq<byte>, m: seq<Slot>)
    requires WFFields(fs) && TypedMsg(fs, m)
    ensures var r := DecFields(fs, bs, Start(m));
      DecNoinit(fs, bs, m).Some? <==>
        && r.Good? && FixedDone(fs, r.st)
        && forall i: nat, k: nat :: Checked(fs, i, k) ==> HoldsRecord(fs, bs, i)
  {
    hide WFFields, TypedMsg, DecFields, HoldsRecord, RequiredBefore;
    var r := DecFields(fs, bs, Start(m));
    if r.Good? {
      forall i: nat, k: nat | Checked(fs, i, k)
        ensures k < CheckedRequired(fs) && (k in r.st.seen <==> HoldsRecord(fs, bs, i))
      {
        RequiredStrict(fs, i, |fs|);
        SeenMeansHeld(fs, bs, Start(m), i, k);
      }
      if forall i: nat, k: nat :: Checked(fs, i, k) ==> HoldsRecord(fs, bs, i) {
        forall k: nat | k < CheckedRequired(fs) ensures k in r.st.seen {
          FieldWithIndex(fs, |fs|, k);
          var i: nat :| Checked(fs, i, k);
        }
      }
    }
  }
}
