/** Packed arrays with dynamic allocation: the growing buffer of `decode_pointer_field`. */
module PointerArray {
  import opened Bits
  import opened PbInput
  import opened Descriptor
  import opened Decoding
  import opened Decoder

  /** Division detects overflow of a product. */
  lemma QuotientBound(limit: nat, a: nat, d: nat)
    requires a > 0
    ensures limit / a < d <==> a * d > limit
  {
    var q, r := limit / a, limit % a;
    assert limit == a * q + r;
    if q < d {
      assert a * d >= a * (q + 1) by { MulMono(a, q + 1, d); }
    } else {
      MulMono(a, d, q);
    }
  }

  lemma MulMono(a: nat, x: nat, y: nat)
    requires x <= y
    ensures a * x <= a * y
  {
    assert a * y == a * x + a * (y - x);
  }

  lemma SmallProduct(a: nat, d: nat)
    requires a < TWO32 && d < TWO32
    ensures a * d < TWO64
  {
    MulMono(a, d, TWO32);
    MulMono(TWO32, a, TWO32 - 1);
  }

  /** `allocate_field` up to the call of realloc: the guard admits a request exactly when it is not empty
      and its total size is a `size_t`. */
  method GuardAllocation(dataSize: nat, entries: nat) returns (ok: bool)
    requires dataSize < TWO64 && entries < TWO64
    ensures ok <==> dataSize > 0 && entries > 0 && entries * dataSize < TWO64
  {
    if dataSize == 0 || entries == 0 { return false; }
    if dataSize >= TWO32 || entries >= TWO32 {
      QuotientBound(TWO64 - 1, entries, dataSize);
      if (TWO64 - 1) / entries < dataSize { return false; }
    } else {
      SmallProduct(entries, dataSize);
    }
    return true;
  }

  /** `allocate_field`: a block of `entries` with the old contents in front, if the heap grants it. */
  method Reallocate(old_: array<Value>, dataSize: nat, entries: nat, heapLimit: nat)
    returns (ok: bool, block: array<Value>)
    requires dataSize < TWO64 && entries < TWO64 && old_.Length <= entries
    ensures ok <==> dataSize > 0 && entries > 0 && entries * dataSize < TWO64 && entries * dataSize <= heapLimit
    ensures ok ==> fresh(block) && block.Length == entries && block[..old_.Length] == old_[..]
    ensures !ok ==> block == old_
  {
    block := old_;
    ok := GuardAllocation(dataSize, entries);
    if ok && entries * dataSize > heapLimit { ok := false; }
    if ok {
      var filler := Num(0);
      block := new Value[entries](i => filler);
      for i := 0 to old_.Length
        modifies block
        invariant block[..i] == old_[..i]
      {
        block[i] := old_[i];
      }
    }
  }

  /** The number of entries to reserve next: a guess from the bytes that are left, one at the least. */
  function NextReserve(reserved: nat, bytesLeft: nat, dataSize: nat): (n: nat)
    requires reserved < PB_SIZE_MAX && bytesLeft > 0 && dataSize > 0
    ensures reserved < n <= PB_SIZE_MAX
  {
    var remain := (bytesLeft - 1) / dataSize + 1;
    assert (bytesLeft - 1) / dataSize >= 0;
    if remain < PB_SIZE_MAX - reserved then reserved + remain else reserved + 1
  }

  /** The guess is the smallest number of entries whose size covers the bytes that are left, so that one reservation
      does for items that take as many bytes in the block as in the array; only where it would reach `PB_SIZE_MAX` is
      it a single entry. */
  lemma ReserveCovers(reserved: nat, bytesLeft: nat, dataSize: nat)
    requires reserved < PB_SIZE_MAX && bytesLeft > 0 && dataSize > 0
    ensures var more := NextReserve(reserved, bytesLeft, dataSize) - reserved;
      && dataSize * (more - 1) < bytesLeft
      && (dataSize * more >= bytesLeft || (more == 1 && dataSize * (PB_SIZE_MAX - reserved - 1) < bytesLeft))
  {
    var q, r := (bytesLeft - 1) / dataSize, (bytesLeft - 1) % dataSize;
    var room := PB_SIZE_MAX - reserved;
    assert bytesLeft == dataSize * q + r + 1;
    assert dataSize * (q + 1) == dataSize * q + dataSize;
    if q + 1 >= room { MulMono(dataSize, room - 1, q); }
  }

  /** The packed loop of `decode_pointer_field`, on a pointer-allocated field like any other. Whatever the input, the
      stored count never exceeds the reserved entries nor `PB_SIZE_MAX`, and every item is stored below the reserved
      count; when it succeeds, the items are those a static array without a limit of its own would hold. It fails only
      on bad input, on more than `PB_SIZE_MAX` items, or when memory is refused. */
  method DecodePackedGrowing(sub: IStream, f: Field, data: array<Value>, heapLimit: nat)
    returns (ok: bool, refused: bool, block: array<Value>, count: nat)
    requires sub.Valid() && WFField(f) && f.Packable() && f.dataSize > 0
    requires TypedItems(f, data[..])
    modifies sub
    ensures sub.Valid() && sub.pos + sub.bytesLeft == old(sub.pos + sub.bytesLeft)
    ensures data.Length <= count <= block.Length <= PB_SIZE_MAX
    ensures ok ==> Some(block[..count]) == old(DecPacked(f, sub.Rest(), data[..], PB_SIZE_MAX)) && sub.bytesLeft == 0
    ensures !ok && !refused ==> old(DecPacked(f, sub.Rest(), data[..], PB_SIZE_MAX)) == None
    ensures block == data || fresh(block)
  {
    hide DecScalar, TypedValue, WFField;
    block, count, refused := data, data.Length, false;
    assert block[..count] == data[..];
    while sub.bytesLeft > 0
      invariant sub.Valid() && sub.pos + sub.bytesLeft == old(sub.pos + sub.bytesLeft)
      invariant data.Length <= count <= block.Length <= PB_SIZE_MAX && (block == data || fresh(block))
      invariant block == data ==> count == data.Length
      invariant TypedItems(f, block[..count])
      invariant old(DecPacked(f, sub.Rest(), data[..], PB_SIZE_MAX)) ==
        DecPacked(f, sub.Rest(), block[..count], PB_SIZE_MAX)
      decreases sub.bytesLeft
    {
      if count == PB_SIZE_MAX { return false, false, block, count; }
      if count + 1 > block.Length {
        var entries := NextReserve(block.Length, sub.bytesLeft, f.dataSize);
        var granted, grown := Reallocate(block, SizeOf(f), entries, heapLimit);
        if !granted { return false, true, block, count; }
        assert grown[..count] == block[..count];
        block := grown;
      }
      ghost var before, head := sub.Rest(), block[..count];
      var status, v := DecodeScalar(sub, f);
      if !status { return false, false, block, count; }
      ScalarProgress(f, before);
      block[count] := v;
      count := count + 1;
      assert block[..count] == head + [v];
    }
    ok := true;
  }

  function SizeOf(f: Field): (n: nat)
    requires WFField(f)
    ensures n == f.dataSize && n < TWO64
  {
    f.dataSize
  }
}
