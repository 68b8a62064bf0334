/** Which messages are encoded to the same bytes again once they have been through the codec. */
module Reencoding {
  import opened Bits
  import opened Varint
  import opened Descriptor
  import opened Encoding
  import opened Decoding
  import opened RoundTrip
  import opened MessageRoundTrip

  // ---- Stable messages -----------------------------------------------------------------------------------

  /** No zero that was skipped comes back as something that is written. */
  predicate StableMsg(fs: seq<Field>, slots: seq<Slot>)
    requires WFFields(fs) && TypedMsg(fs, slots)
    decreases fs, 1
  {
    forall i :: 0 <= i < |fs| ==> StableField(fs, slots, i)
  }

  predicate StableValue(f: Field, v: Value)
    requires WFField(f) && TypedValue(f, v)
    decreases f, 0
  {
    f.ltype.Submessage? ==> StableMsg(f.sub, v.slots)
  }

  predicate StableItems(f: Field, items: seq<Value>)
    requires WFField(f) && TypedItems(f, items)
    decreases f, 1
  {
    forall k :: 0 <= k < |items| ==> StableValue(f, items[k])
  }

  predicate StableField(fs: seq<Field>, slots: seq<Slot>, i: nat)
    requires WFFields(fs) && TypedMsg(fs, slots) && i < |fs|
    decreases fs, 0
  {
    var f := fs[i];
    assert WFField(f);
    InitValueTyped(f);
    if f.htype.Repeated? then StableItems(f, ItemsOf(fs, i, slots))
    else
      var v := Present(fs, slots, i);
      if v.Some? then StableValue(f, v.value)
      else f.htype.Optional? && f.sizeOffset == 0 ==> ZeroSingular(f, InitValue(f))
  }

  /** `b` encodes what comes back of what `a` encodes: the same bytes if it is stable, and otherwise more, if it can be
      encoded at all. */
  predicate Grown(a: Option<seq<byte>>, b: Option<seq<byte>>, stable: bool) {
    a.Some? ==> (if stable then b == a else b.None? || |b.value| > |a.value|)
  }

  lemma GrownCat(
    a: Option<seq<byte>>, b: Option<seq<byte>>, s: bool, a': Option<seq<byte>>, b': Option<seq<byte>>, s': bool)
    requires Grown(a, b, s) && Grown(a', b', s')
    ensures Grown(Cat(a, a'), Cat(b, b'), s && s')
  {}

  lemma {:induction false} EncVarintMono(u: nat, v: nat)
    requires u <= v
    ensures |EncVarint(u)| <= |EncVarint(v)|
  {
    if v >= 128 && u >= 128 { EncVarintMono(u / 128, v / 128); }
  }

  lemma GrownSub(fs: seq<Field>, slots: seq<Slot>, slots': seq<Slot>, s: bool)
    requires WFFields(fs) && TypedMsg(fs, slots) && TypedMsg(fs, slots')
    requires Grown(EncMsg(fs, slots), EncMsg(fs, slots'), s)
    ensures Grown(EncSub(fs, slots), EncSub(fs, slots'), s)
  {
    hide WFFields, TypedMsg, EncMsg, EncVarint;
    var a, b := EncMsg(fs, slots), EncMsg(fs, slots');
    if a.Some? && b.Some? && !s { EncVarintMono(|a.value|, |b.value|); }
  }

  /** What is not zero does not come back as a zero. */
  lemma {:induction false} ZeroCanonBack(f: Field, v: Value)
    requires WFField(f) && TypedValue(f, v) && TypedValue(f, CanonValue(f, v))
    ensures ZeroSingular(f, CanonValue(f, v)) ==> ZeroSingular(f, v)
    decreases f, 0
  {
    hide WFFields, WFField;
    if f.ltype.Submessage? {
      assert WFFields(f.sub) by { SubTable(f); }
      forall j | 0 <= j < |f.sub|
        ensures ZeroField(f.sub, CanonMsg(f.sub, v.slots), j) ==> ZeroField(f.sub, v.slots, j)
      {
        ZeroFieldBack(f.sub, v.slots, j);
      }
    }
  }

  lemma {:induction false} ZeroFieldBack(fs: seq<Field>, slots: seq<Slot>, j: nat)
    requires WFFields(fs) && TypedMsg(fs, slots) && TypedMsg(fs, CanonMsg(fs, slots)) && j < |fs|
    ensures ZeroField(fs, CanonMsg(fs, slots), j) ==> ZeroField(fs, slots, j)
    decreases fs, 0
  {
    hide WFFields, WFField, ZeroSingular, CanonValue, InitValue, TypedValue;
    var f, h := fs[j], Home(fs, j);
    assert WFField(f) by { FindTagIn(fs, j); }
    assert TypedSlot(fs, h, slots[h]) && TypedSlot(fs, h, CanonMsg(fs, slots)[h]);
    assert CanonMsg(fs, slots)[h] == CanonSlot(fs, h, slots[h]);
    if f.htype.Optional? && f.sizeOffset == 0 {
      CanonValueTyped(f, slots[j].v);
      ZeroCanonBack(f, slots[j].v);
    }
  }

  lemma SubTable(f: Field)
    requires WFField(f) && f.ltype.Submessage?
    ensures WFFields(f.sub)
  {}

  lemma FindTagIn(fs: seq<Field>, i: nat)
    requires WFFields(fs) && i < |fs|
    ensures WFField(fs[i]) && FindTag(fs, fs[i].tag) == i && fs[i].tag != 0
  {
    assert WFField(fs[i]);
    FindTagOf(fs, i);
  }

  lemma {:induction false} EncCanonValue(f: Field, v: Value)
    requires WFField(f) && TypedValue(f, v) && TypedValue(f, CanonValue(f, v))
    ensures Grown(EncValue(f, v), EncValue(f, CanonValue(f, v)), StableValue(f, v))
    decreases f, 0, 0
  {
    hide WFField, WFFields, EncScalar, EncMsg, EncSub, StableMsg, CanonMsg;
    if f.ltype.Submessage? {
      assert WFFields(f.sub) by { SubTable(f); }
      EncCanonMsg(f.sub, v.slots);
      GrownSub(f.sub, v.slots, CanonMsg(f.sub, v.slots), StableMsg(f.sub, v.slots));
    }
  }

  lemma {:induction false} EncCanonItems(f: Field, items: seq<Value>, tagged: bool)
    requires WFField(f) && TypedItems(f, items) && TypedItems(f, CanonItems(f, items))
    ensures Grown(EncItems(f, items, tagged), EncItems(f, CanonItems(f, items), tagged), StableItems(f, items))
    decreases f, 1, |items|
  {
    hide WFField, EncValue, CanonValue, TypedValue, StableValue, Cat, Grown, FieldTag;
    if items == [] {
      NothingGrown(Some([]));
    } else {
      var n, tag := |items| - 1, Some(if tagged then FieldTag(f) else []);
      var canon := CanonItems(f, items);
      assert canon[..n] == CanonItems(f, items[..n]) && canon[n] == CanonValue(f, items[n]);
      EncCanonItems(f, items[..n], tagged);
      EncCanonValue(f, items[n]);
      NothingGrown(tag);
      GrownCat(tag, tag, true, EncValue(f, items[n]), EncValue(f, canon[n]), StableValue(f, items[n]));
      GrownCat(EncItems(f, items[..n], tagged), EncItems(f, canon[..n], tagged), StableItems(f, items[..n]),
               Cat(tag, EncValue(f, items[n])), Cat(tag, EncValue(f, canon[n])), StableValue(f, items[n]));
      assert StableItems(f, items) <==> StableItems(f, items[..n]) && StableValue(f, items[n]);
    }
  }

  lemma NothingGrown(a: Option<seq<byte>>)
    ensures Grown(a, a, true)
  {}

  lemma {:induction false} EncCanonArray(f: Field, items: seq<Value>)
    requires WFField(f) && TypedItems(f, items) && TypedItems(f, CanonItems(f, items))
    ensures Grown(EncArray(f, items), EncArray(f, CanonItems(f, items)), StableItems(f, items))
    decreases f, 2, 0
  {
    hide WFField, TypedItems, EncItems, FieldTag;
    if f.Packable() {
      assert CanonItems(f, items) == items;
    } else {
      EncCanonItems(f, items, true);
    }
  }

  /** What is present in a message is present in what comes back of it. */
  lemma PresentCanon(fs: seq<Field>, slots: seq<Slot>, i: nat)
    requires WFFields(fs) && TypedMsg(fs, slots) && TypedMsg(fs, CanonMsg(fs, slots)) && i < |fs|
    requires !fs[i].htype.Repeated?
    ensures var f, v, v' := fs[i], Present(fs, slots, i), Present(fs, CanonMsg(fs, slots), i);
      && TypedValue(f, InitValue(f))
      && (v.Some? ==> v' == Some(CanonValue(f, v.value)))
      && (v.None? && !(f.htype.Optional? && f.sizeOffset == 0 && !ZeroSingular(f, InitValue(f))) ==> v'.None?)
      && (v.None? && f.htype.Optional? && f.sizeOffset == 0 && !ZeroSingular(f, InitValue(f)) ==>
            v' == Some(InitValue(f)))
  {
    hide WFFields, WFField, CanonValue, InitValue, TypedValue, ZeroSingular;
    var f, h, canon := fs[i], Home(fs, i), CanonMsg(fs, slots);
    FindTagIn(fs, i);
    InitValueTyped(f);
    assert TypedSlot(fs, h, slots[h]) && TypedSlot(fs, h, canon[h]) && canon[h] == CanonSlot(fs, h, slots[h]);
    if f.htype.Optional? && f.sizeOffset == 0 {
      CanonValueTyped(f, slots[i].v);
      ZeroCanonBack(f, slots[i].v);
    }
  }

  lemma {:induction false} EncCanonField(fs: seq<Field>, slots: seq<Slot>, i: nat)
    requires WFFields(fs) && TypedMsg(fs, slots) && TypedMsg(fs, CanonMsg(fs, slots)) && i < |fs|
    ensures Grown(EncField(fs, slots, i), EncField(fs, CanonMsg(fs, slots), i), StableField(fs, slots, i))
    decreases fs, 1, 0
  {
    hide WFFields, WFField, EncValue, EncArray, CanonValue, InitValue, TypedValue, ZeroSingular, StableValue,
      StableItems, Present, Cat, FieldTag;
    var f, canon := fs[i], CanonMsg(fs, slots);
    FindTagIn(fs, i);
    assert TypedSlot(fs, i, slots[i]) && TypedSlot(fs, i, canon[i]) && canon[i] == CanonSlot(fs, i, slots[i]);
    if f.htype.Repeated? {
      EncCanonArray(f, slots[i].items);
    } else {
      PresentCanon(fs, slots, i);
      var v := Present(fs, slots, i);
      if v.Some? {
        CanonValueTyped(f, v.value);
        EncCanonValue(f, v.value);
        GrownCat(Some(FieldTag(f)), Some(FieldTag(f)), true,
                 EncValue(f, v.value), EncValue(f, CanonValue(f, v.value)), StableValue(f, v.value));
      } else {
        TaggedNotEmpty(f, EncValue(f, InitValue(f)));
      }
    }
  }

  lemma TaggedNotEmpty(f: Field, e: Option<seq<byte>>)
    ensures var r := Cat(Some(FieldTag(f)), e); r.None? || |r.value| > 0
  {}

  predicate StableUpTo(fs: seq<Field>, slots: seq<Slot>, n: nat)
    requires WFFields(fs) && TypedMsg(fs, slots) && n <= |fs|
  {
    forall i :: 0 <= i < n ==> StableField(fs, slots, i)
  }

  lemma {:induction false} EncCanonUpTo(fs: seq<Field>, slots: seq<Slot>, n: nat)
    requires WFFields(fs) && TypedMsg(fs, slots) && TypedMsg(fs, CanonMsg(fs, slots)) && n <= |fs|
    ensures Grown(EncUpTo(fs, slots, n), EncUpTo(fs, CanonMsg(fs, slots), n), StableUpTo(fs, slots, n))
    decreases fs, 2, n
  {
    hide WFFields, TypedMsg, CanonMsg, EncField, StableField, Cat, Grown;
    if n == 0 {
      NothingGrown(Some([]));
    } else {
      var canon := CanonMsg(fs, slots);
      EncCanonUpTo(fs, slots, n - 1);
      EncCanonField(fs, slots, n - 1);
      GrownCat(EncUpTo(fs, slots, n - 1), EncUpTo(fs, canon, n - 1), StableUpTo(fs, slots, n - 1),
               EncField(fs, slots, n - 1), EncField(fs, canon, n - 1), StableField(fs, slots, n - 1));
      assert StableUpTo(fs, slots, n) <==> StableUpTo(fs, slots, n - 1) && StableField(fs, slots, n - 1);
    }
  }

  lemma {:induction false} EncCanonMsg(fs: seq<Field>, slots: seq<Slot>)
    requires WFFields(fs) && TypedMsg(fs, slots)
    ensures TypedMsg(fs, CanonMsg(fs, slots))
    ensures Grown(EncMsg(fs, slots), EncMsg(fs, CanonMsg(fs, slots)), StableMsg(fs, slots))
    decreases fs, 3, 0
  {
    hide WFFields, TypedMsg, CanonMsg, EncUpTo, StableField;
    CanonMsgTyped(fs, slots);
    EncCanonUpTo(fs, slots, |fs|);
    assert StableUpTo(fs, slots, |fs|) <==> StableMsg(fs, slots);
  }

  /** Decoding an encoded message and encoding the result again gives the same bytes if and only if the message is
      stable; otherwise it gives more bytes or none. */
  lemma ReencodesExactly(fs: seq<Field>, slots: seq<Slot>)
    requires WFFields(fs) && TypedMsg(fs, slots)
    requires EncMsg(fs, slots).Some? && |EncMsg(fs, slots).value| < TWO63
    requires DecMsg(fs, EncMsg(fs, slots).value).Some?
    ensures var m := DecMsg(fs, EncMsg(fs, slots).value).value.0;
      && TypedMsg(fs, m)
      && (EncMsg(fs, m) == EncMsg(fs, slots) <==> StableMsg(fs, slots))
      && (EncMsg(fs, m).Some? && !StableMsg(fs, slots) ==> |EncMsg(fs, m).value| > |EncMsg(fs, slots).value|)
  {
    hide WFFields, TypedMsg, CanonMsg, EncMsg, DecMsg, StableMsg;
    RoundTripExactly(fs, slots);
    EncCanonMsg(fs, slots);
  }

  // ---- Tables on which every message is stable ---------------------------------------------------------------

  /** An explicit default where there is no has-flag is a zero. */
  predicate QuietDefaults(fs: seq<Field>)
    decreases fs, 1
  {
    forall i :: 0 <= i < |fs| ==> QuietDefault(fs[i])
  }

  predicate QuietDefault(f: Field)
    decreases f, 0
  {
    if f.ltype.Submessage? then QuietDefaults(f.sub)
    else f.htype.Optional? && f.sizeOffset == 0 && f.dflt.Some? ==>
      TypedScalar(f, f.dflt.value) ==> ZeroSingular(f, f.dflt.value)
  }

  /** The zero test of the encoder does not tell a value from the one that comes back ... */
  lemma {:induction false} ZeroCanon(f: Field, v: Value)
    requires WFField(f) && QuietDefault(f) && TypedValue(f, v) && TypedValue(f, CanonValue(f, v))
    ensures ZeroSingular(f, CanonValue(f, v)) <==> ZeroSingular(f, v)
    decreases f, 0
  {
    hide WFFields, WFField;
    if f.ltype.Submessage? {
      assert WFFields(f.sub) by { SubTable(f); }
      forall j | 0 <= j < |f.sub|
        ensures ZeroField(f.sub, CanonMsg(f.sub, v.slots), j) <==> ZeroField(f.sub, v.slots, j)
      {
        ZeroFieldCanon(f.sub, v.slots, j);
      }
    }
  }

  lemma {:induction false} ZeroFieldCanon(fs: seq<Field>, slots: seq<Slot>, j: nat)
    requires WFFields(fs) && QuietDefaults(fs) && TypedMsg(fs, slots) && TypedMsg(fs, CanonMsg(fs, slots)) && j < |fs|
    ensures ZeroField(fs, CanonMsg(fs, slots), j) <==> ZeroField(fs, slots, j)
    decreases fs, 0
  {
    hide WFFields, WFField, ZeroSingular, CanonValue, InitValue, TypedValue;
    var f, h := fs[j], Home(fs, j);
    assert WFField(f) && QuietDefault(f) by { FieldOf(fs, j); }
    assert TypedSlot(fs, h, slots[h]) && TypedSlot(fs, h, CanonMsg(fs, slots)[h]);
    assert CanonMsg(fs, slots)[h] == CanonSlot(fs, h, slots[h]);
    if f.htype.Optional? && f.sizeOffset == 0 {
      var v := slots[j].v;
      CanonValueTyped(f, v);
      ZeroCanon(f, v);
      if ZeroSingular(f, v) { InitIsZero(f, v); }
    }
  }

  lemma FieldOf(fs: seq<Field>, j: nat)
    requires WFFields(fs) && QuietDefaults(fs) && j < |fs|
    ensures WFField(fs[j]) && QuietDefault(fs[j])
  {}

  /** ... and what a skipped zero comes back as is a zero. */
  lemma {:induction false} InitIsZero(f: Field, v: Value)
    requires WFField(f) && QuietDefault(f) && f.htype.Optional? && f.sizeOffset == 0
    requires TypedValue(f, v) && ZeroSingular(f, v) && TypedValue(f, CanonValue(f, v))
    requires ZeroSingular(f, CanonValue(f, v))
    ensures TypedValue(f, InitValue(f)) && ZeroSingular(f, InitValue(f))
  {
    InitValueTyped(f);
    if f.ltype.Submessage? || f.dflt.None? { ZeroIsInit(f, v); }
  }

  lemma {:induction false} QuietValue(f: Field, v: Value)
    requires WFField(f) && QuietDefault(f) && TypedValue(f, v)
    ensures StableValue(f, v)
    decreases f, 0
  {
    if f.ltype.Submessage? { QuietMsg(f.sub, v.slots); }
  }

  /** With no explicit default but zeros where there is no has-flag, every message is stable. */
  lemma {:induction false} QuietMsg(fs: seq<Field>, slots: seq<Slot>)
    requires WFFields(fs) && QuietDefaults(fs) && TypedMsg(fs, slots)
    ensures StableMsg(fs, slots)
    decreases fs, 1
  {
    hide WFFields, WFField, StableValue, ZeroSingular, TypedValue, InitValue, CanonValue;
    forall i | 0 <= i < |fs| ensures StableField(fs, slots, i) {
      var f := fs[i];
      FieldOf(fs, i);
      FindTagIn(fs, i);
      if f.htype.Repeated? {
        var items := ItemsOf(fs, i, slots);
        forall k | 0 <= k < |items| ensures StableValue(f, items[k]) { QuietValue(f, items[k]); }
      } else {
        var v := Present(fs, slots, i);
        if v.Some? {
          QuietValue(f, v.value);
        } else if f.htype.Optional? && f.sizeOffset == 0 {
          assert TypedSlot(fs, i, slots[i]);
          CanonValueTyped(f, slots[i].v);
          ZeroCanon(f, slots[i].v);
          InitIsZero(f, slots[i].v);
        }
      }
    }
  }
}
