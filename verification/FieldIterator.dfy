/** The wrapping field iterator of pb_common.c. */
module FieldIterator {
  import opened Bits
  import opened Descriptor

  /** Space a field takes in the struct. */
  function StructSize(f: Field): nat {
    if f.atype.Static? && f.htype.Repeated? then f.dataSize * f.arraySize
    else if f.atype.Pointer? then 8
    else f.dataSize
  }

  /** Offset of the data of field `i` in the struct; the terminator of an empty table has offset 0. */
  function DataOffset(fs: seq<Field>, i: nat): int
    requires i < |fs| || i == 0
  {
    if i == 0 then (if fs == [] then 0 else fs[0].dataOffset)
    else if InUnion(fs, i) then DataOffset(fs, i - 1)
    else DataOffset(fs, i - 1) + StructSize(fs[i - 1]) + fs[i].dataOffset
  }

  /** Offset of the has-flag, count or union tag of field `i`. */
  function SizeOffset(fs: seq<Field>, i: nat): int
    requires i < |fs| || i == 0
  {
    if i > 0 && InUnion(fs, i) then SizeOffset(fs, i - 1)
    else DataOffset(fs, i) + (if fs == [] then 0 else fs[i].sizeOffset)
  }

  /** Number of required fields before position `i`. */
  function RequiredBefore(fs: seq<Field>, i: nat): (n: nat)
    requires i <= |fs|
    ensures n <= i
  {
    if i == 0 then 0 else RequiredBefore(fs, i - 1) + (if fs[i - 1].htype.Required? then 1 else 0)
  }

  /** All members of a union share the storage of its first member. */
  lemma {:induction false} UnionShares(fs: seq<Field>, i: nat)
    requires i < |fs|
    ensures DataOffset(fs, i) == DataOffset(fs, Home(fs, i)) && SizeOffset(fs, i) == SizeOffset(fs, Home(fs, i))
  {
    if InUnion(fs, i) { UnionShares(fs, i - 1); }
  }

  /** A field that is not in a union lies before everything that follows it. */
  lemma {:induction false} FieldsDisjoint(fs: seq<Field>, i: nat, j: nat)
    requires i < j < |fs| && !fs[i].htype.Oneof?
    ensures DataOffset(fs, i) + StructSize(fs[i]) <= DataOffset(fs, j)
    decreases j
  {
    if i + 1 < j { FieldsDisjoint(fs, i, j - 1); }
  }

  /** No element of a static array reaches into a field that follows it, nor does any other field outside a union: an
      array has room for all its elements, and a pointer takes eight bytes. */
  lemma ElementsInside(fs: seq<Field>, i: nat, j: nat, k: nat)
    requires i < j < |fs| && !fs[i].htype.Oneof?
    ensures fs[i].atype.Static? && fs[i].htype.Repeated? && k < fs[i].arraySize ==>
      DataOffset(fs, i) + fs[i].dataSize * k + fs[i].dataSize <= DataOffset(fs, j)
    ensures fs[i].atype.Static? && !fs[i].htype.Repeated? ==> DataOffset(fs, i) + fs[i].dataSize <= DataOffset(fs, j)
    ensures fs[i].atype.Pointer? ==> DataOffset(fs, i) + 8 <= DataOffset(fs, j)
  {
    hide DataOffset;
    FieldsDisjoint(fs, i, j);
    if k < fs[i].arraySize {
      assert fs[i].dataSize * (k + 1) <= fs[i].dataSize * fs[i].arraySize;
      assert fs[i].dataSize * (k + 1) == fs[i].dataSize * k + fs[i].dataSize;
    }
  }

  lemma {:induction false} RequiredStrict(fs: seq<Field>, i: nat, j: nat)
    requires i < j <= |fs| && fs[i].htype.Required?
    ensures RequiredBefore(fs, i) < RequiredBefore(fs, j)
    decreases j
  {
    if i + 1 < j { RequiredStrict(fs, i, j - 1); }
  }

  lemma {:induction false} RequiredMono(fs: seq<Field>, i: nat, j: nat)
    requires i <= j <= |fs|
    ensures RequiredBefore(fs, i) <= RequiredBefore(fs, j)
    decreases j
  {
    if i < j { RequiredMono(fs, i, j - 1); }
  }

  /** Does the entry at `i` (possibly the terminator of an empty table) answer to `tag`? */
  predicate Matches(fs: seq<Field>, i: nat, tag: nat) {
    if i < |fs| then fs[i].tag == tag && !fs[i].ltype.Extension? else tag == 0
  }

  /** The position `k` steps after `start`, wrapping at the end of the table. */
  function Ahead(fs: seq<Field>, start: nat, k: nat): nat {
    if start + k < |fs| then start + k else if fs == [] then 0 else Min(start + k - |fs|, |fs|)
  }

  class FieldIter {
    const fields: seq<Field>
    var pos: nat
    var requiredIndex: nat
    var dataAt: int
    var sizeAt: int

    /** Offsets and the required-field index are functions of the position alone. */
    ghost predicate Valid()
      reads this
    {
      && (forall i :: 0 <= i < |fields| ==> fields[i].tag != 0)
      && (pos < |fields| || (fields == [] && pos == 0))
      && requiredIndex == RequiredBefore(fields, pos)
      && dataAt == DataOffset(fields, pos) && sizeAt == SizeOffset(fields, pos)
    }

    /** Tag of the current entry; 0 on the terminator. */
    function CurrentTag(): nat
      reads this
    {
      if pos < |fields| then fields[pos].tag else 0
    }

    /** `pb_field_iter_begin` */
    constructor Begin(fields: seq<Field>)
      requires forall i :: 0 <= i < |fields| ==> fields[i].tag != 0
      ensures Valid() && pos == 0 && this.fields == fields
    {
      this.fields, pos, requiredIndex := fields, 0, 0;
      dataAt := if fields == [] then 0 else fields[0].dataOffset;
      sizeAt := if fields == [] then 0 else fields[0].dataOffset + fields[0].sizeOffset;
    }

    /** `pb_field_iter_next`: false when it wrapped back to the start. */
    method Next() returns (more: bool)
      requires Valid()
      modifies this
      ensures Valid()
      ensures pos == if old(pos) + 1 < |fields| then old(pos) + 1 else 0
      ensures more == (old(pos) + 1 < |fields|)
    {
      if fields == [] { return false; }
      var prev := fields[pos];
      pos := pos + 1;
      if pos == |fields| {
        pos, requiredIndex := 0, 0;
        dataAt, sizeAt := fields[0].dataOffset, fields[0].dataOffset + fields[0].sizeOffset;
        return false;
      }
      var prevSize := prev.dataSize;
      if prev.htype.Oneof? && fields[pos].htype.Oneof? && fields[pos].dataOffset == PB_SIZE_MAX {
        return true;
      } else if prev.atype.Static? && prev.htype.Repeated? {
        prevSize := prevSize * prev.arraySize;
      } else if prev.atype.Pointer? {
        prevSize := 8;
      }
      if prev.htype.Required? { requiredIndex := requiredIndex + 1; }
      dataAt := dataAt + prevSize + fields[pos].dataOffset;
      sizeAt := dataAt + fields[pos].sizeOffset;
      return true;
    }

    /** `pb_field_iter_find`: within one lap it stops at the next entry for `tag`, or where it started
        when there is none. */
    method Find(tag: nat) returns (found: bool)
      requires Valid()
      modifies this
      ensures Valid()
      ensures found ==> Matches(fields, pos, tag)
      ensures found ==> exists k: nat ::
        (k < |fields| || k == 0) && pos == Ahead(fields, old(pos), k) && NoneBefore(fields, old(pos), k, tag)
      ensures !found ==> pos == old(pos) && forall i :: 0 <= i < |fields| ==> !Matches(fields, i, tag)
      ensures found <==> if fields == [] then tag == 0 else exists i :: 0 <= i < |fields| && Matches(fields, i, tag)
    {
      var start := pos;
      ghost var k: nat := 0;
      while true
        invariant Valid() && (k < |fields| || k == 0)
        invariant pos == Ahead(fields, start, k)
        invariant NoneBefore(fields, start, k, tag)
        decreases |fields| - k
      {
        if CurrentTag() == tag && (pos == |fields| || !fields[pos].ltype.Extension?) {
          assert Matches(fields, pos, tag);
          return true;
        }
        var _ := Next();
        if pos == start {
          FullLap(fields, start, k, tag);
          return false;
        }
        k := k + 1;
      }
    }
  }

  ghost predicate NoneBefore(fs: seq<Field>, start: nat, k: nat, tag: nat) {
    forall j: nat :: j < k ==> !Matches(fs, Ahead(fs, start, j), tag)
  }

  /** After a step that returns to the start, every entry has been looked at. */
  lemma FullLap(fs: seq<Field>, start: nat, k: nat, tag: nat)
    requires (start < |fs| && k < |fs|) || (fs == [] && start == k == 0)
    requires NoneBefore(fs, start, k, tag) && !Matches(fs, Ahead(fs, start, k), tag)
    requires start == if Ahead(fs, start, k) + 1 < |fs| then Ahead(fs, start, k) + 1 else 0
    ensures forall i :: 0 <= i < |fs| ==> !Matches(fs, i, tag)
    ensures fs == [] ==> tag != 0
  {
    forall i | 0 <= i < |fs| ensures !Matches(fs, i, tag) {
      var j := if i >= start then i - start else i + |fs| - start;
      assert i == Ahead(fs, start, j);
    }
  }
}
