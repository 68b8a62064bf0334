/** Base-128 varints and zigzag numbers: the wire reference, the encoder's output, and the
    32-bit fast path of the decoder as a function of the bytes it sees. */
module Varint {
  import opened Bits

  /** Number of bytes up to and including the first one without a continuation bit; 0 if there is none. */
  function VarintLen(bs: seq<byte>): (n: nat)
    ensures n <= |bs|
    ensures n > 0 ==> bs[n - 1] < 128 && forall i :: 0 <= i < n - 1 ==> bs[i] >= 128
    ensures n == 0 ==> forall i :: 0 <= i < |bs| ==> bs[i] >= 128
  {
    if bs == [] then 0
    else if bs[0] < 128 then 1
    else
      var n := VarintLen(bs[1..]);
      assert forall i :: 1 <= i < |bs| ==> bs[i] == bs[1..][i - 1];
      if n == 0 then 0 else n + 1
  }

  /** The number spelled by 7-bit groups, least significant group first. */
  function Groups(bs: seq<byte>): nat {
    if bs == [] then 0 else bs[0] % 128 + 128 * Groups(bs[1..])
  }

  /** Reference meaning of a varint read by a 64-bit decoder: at most ten bytes, value modulo 2^64. */
  function DecVarint(bs: seq<byte>): Parse<nat> {
    var n := VarintLen(bs);
    if 1 <= n <= 10 then Done(Low64(Groups(bs[..n])), bs[n..]) else Fail
  }

  lemma WordBound(bs: seq<byte>)
    ensures DecVarint(bs).Done? ==> DecVarint(bs).value < TWO64
  {}

  /** Output of `pb_encode_varint`. */
  function EncVarint(v: nat): (bs: seq<byte>)
    ensures |bs| >= 1
  {
    if v < 128 then [v] else [v % 128 + 128] + EncVarint(v / 128)
  }

  // ---- 64-bit encode/decode ------------------------------------------------------------

  lemma {:induction false} EncVarintShape(v: nat, rest: seq<byte>)
    ensures VarintLen(EncVarint(v) + rest) == |EncVarint(v)|
    ensures Groups(EncVarint(v)) == v
  {
    hide VarintLen, Groups;
    var e := EncVarint(v);
    if v < 128 {
      OneByte(v, rest);
      assert e == [v];
    } else {
      var tail := EncVarint(v / 128);
      EncVarintShape(v / 128, rest);
      assert e == [e[0]] + tail && e[0] == v % 128 + 128;
      GroupsCons(e[0], tail);
      assert e + rest == [e[0]] + (tail + rest);
      VarintLenCons(e[0], tail + rest);
    }
  }

  lemma OneByte(b: byte, rest: seq<byte>)
    requires b < 128
    ensures VarintLen([b] + rest) == 1 && Groups([b]) == b
  {
    assert [b][1..] == [];
  }

  lemma GroupsCons(b: byte, bs: seq<byte>)
    ensures Groups([b] + bs) == b % 128 + 128 * Groups(bs)
  {
    assert ([b] + bs)[1..] == bs;
  }

  lemma VarintLenCons(b: byte, bs: seq<byte>)
    requires b >= 128 && VarintLen(bs) > 0
    ensures VarintLen([b] + bs) == 1 + VarintLen(bs)
  {
    assert ([b] + bs)[1..] == bs;
  }

  /** `v` takes at most `n` bytes exactly when it fits in `7n` bits. */
  lemma {:induction false} EncVarintLength(v: nat, n: nat)
    requires n >= 1
    ensures |EncVarint(v)| <= n <==> v < Pow2(7 * n)
  {
    if n == 1 {
      Shl7(1);
    } else {
      Pow2Times128(n - 1);
      if v >= 128 { EncVarintLength(v / 128, n - 1); }
    }
  }

  lemma Pow2Times128(n: nat)
    ensures Pow2(7 * (n + 1)) == 128 * Pow2(7 * n)
  {
    ShlShl(1, 7 * n, 7);
    Shl7(Pow2(7 * n));
  }

  lemma {:induction false} GroupsBound(bs: seq<byte>)
    ensures Groups(bs) < Pow2(7 * |bs|)
  {
    if bs != [] {
      GroupsBound(bs[1..]);
      Pow2Times128(|bs[1..]|);
    }
  }

  lemma AtMostTenBytes(v: nat)
    requires v < TWO64
    ensures |EncVarint(v)| <= 10
  {
    Shl63(1); ShlShl(1, 63, 7); Shl7(0x8000_0000_0000_0000);
    EncVarintLength(v, 10);
  }

  /** Decoding what was encoded gives the number back and stops right after it, in one to ten bytes. */
  lemma VarintRoundTrip(v: nat, rest: seq<byte>)
    requires v < TWO64
    ensures DecVarint(EncVarint(v) + rest) == Done(v, rest)
    ensures 1 <= |EncVarint(v)| <= 10
  {
    var e := EncVarint(v);
    EncVarintShape(v, rest);
    AtMostTenBytes(v);
    assert (e + rest)[..|e|] == e && (e + rest)[|e|..] == rest;
  }

  /** No varint for the same number is shorter than the encoder's. */
  lemma {:induction false} EncVarintMinimal(v: nat, w: seq<byte>)
    requires VarintLen(w) == |w| > 0 && Groups(w) == v
    ensures |EncVarint(v)| <= |w|
  {
    GroupsBound(w);
    EncVarintLength(v, |w|);
  }

  // ---- Locality ------------------------------------------------------------------------

  /** A varint that is complete in `a` is read the same way whatever follows. */
  lemma {:induction false} VarintLenAppend(a: seq<byte>, b: seq<byte>)
    requires VarintLen(a) > 0
    ensures VarintLen(a + b) == VarintLen(a)
  {
    assert (a + b)[0] == a[0];
    if a[0] >= 128 {
      VarintLenAppend(a[1..], b);
      assert (a + b)[1..] == a[1..] + b;
    }
  }

  lemma DecVarintAppend(a: seq<byte>, b: seq<byte>)
    requires DecVarint(a).Done?
    ensures DecVarint(a + b) == Done(DecVarint(a).value, DecVarint(a).rest + b)
  {
    VarintLenAppend(a, b);
    var n := VarintLen(a);
    assert (a + b)[..n] == a[..n] && (a + b)[n..] == a[n..] + b;
  }

  // ---- One turn of the 64-bit loop --------------------------------------------------------

  lemma GroupIn64(x: nat, i: nat)
    requires x < 128 && i <= 9
    ensures i <= 8 ==> Shl(x, 7 * i) < 0x8000_0000_0000_0000 && Pow2(7 * i) <= 0x8000_0000_0000_0000
    ensures i == 9 ==> Low64(Shl(x, 63)) == Shl(x % 2, 63)
  {
    hide Shl, Low64;
    Shl63(1);
    if i <= 8 {
      Shl7(1); ShlShl(1, 7, 7 * i);
      ShlLess(x, 128, 7 * i);
      ShlShl(1, 7 * (i + 1), 63 - 7 * (i + 1));
      ShlAtLeast(Pow2(7 * (i + 1)), 63 - 7 * (i + 1));
      ShlAtLeast(Pow2(7 * i), 7);
      ShlShl(1, 7 * i, 7);
    } else {
      Shl63(x); Shl63(x % 2);
      HighBit(x);
    }
  }

  lemma HighBit(x: nat)
    ensures Low64(0x8000_0000_0000_0000 * x) == 0x8000_0000_0000_0000 * (x % 2)
  {
    assert x == 2 * (x / 2) + x % 2;
    Low64Plus(0x8000_0000_0000_0000 * (x % 2), x / 2);
  }

  /** Loop invariant of the 64-bit decoder: or-ing in the next group gives the number so far. */
  lemma StepKeeps64(seen: seq<byte>, b: byte)
    requires |seen| <= 9
    ensures BitOr(Low64(Groups(seen)), Low64(Shl(b % 128, 7 * |seen|))) == Low64(Groups(seen + [b]))
  {
    hide Shl, BitOr, Groups;
    var i, g, x := |seen|, Groups(seen), b % 128;
    GroupsSnoc(seen, b);
    GroupsBound(seen);
    GroupIn64(x, i);
    if i <= 8 {
      BitOrDisjoint(g, x, 7 * i);
    } else {
      Shl63(1); Shl63(x); Shl63(x % 2);
      BitOrDisjoint(g, x % 2, 63);
      HighSum(g, x);
    }
  }

  lemma HighSum(g: nat, x: nat)
    requires g < 0x8000_0000_0000_0000
    ensures Low64(g + 0x8000_0000_0000_0000 * x) == g + 0x8000_0000_0000_0000 * (x % 2)
  {
    assert x == 2 * (x / 2) + x % 2;
    Low64Plus(g + 0x8000_0000_0000_0000 * (x % 2), x / 2);
  }

  // ---- The 32-bit fast path ------------------------------------------------------------

  /** The byte that continues the sign of a negative number at bit position `bitpos`. */
  function SignExtension(bitpos: nat): byte {
    if bitpos < 63 then 0xFF else 0x01
  }

  /** One turn of the multi-byte loop: the new value, or nothing on "varint overflow". */
  function Step32(b: byte, bitpos: nat, result: nat): Option<nat> {
    if bitpos >= 32 then
      if b % 128 != 0 && (result < 0x8000_0000 || b != SignExtension(bitpos)) then None else Some(result)
    else
      Some(BitOr(result, Low32(Shl(b % 128, bitpos))))
  }

  /** The multi-byte loop. `bitpos` is a `uint_fast8_t`, so it wraps at 256. */
  function Loop32(bs: seq<byte>, bitpos: nat, result: nat): (r: Parse<nat>)
    ensures r.Done? ==> |r.rest| < |bs|
  {
    if bs == [] then Fail
    else
      match Step32(bs[0], bitpos, result)
      case None => Fail
      case Some(result') =>
        var bitpos' := (bitpos + 7) % 256;
        if bs[0] >= 128 then Loop32(bs[1..], bitpos', result')
        else if bitpos' == 35 && (bs[0] / 16) % 8 != 0 then Fail
        else Done(result', bs[1..])
  }

  /** `pb_decode_varint32`. */
  function DecVarint32(bs: seq<byte>): (r: Parse<nat>)
    ensures r.Done? ==> |r.rest| < |bs|
  {
    if bs == [] then Fail
    else if bs[0] < 128 then Done(bs[0], bs[1..])
    else Loop32(bs[1..], 7, bs[0] % 128)
  }

  /** How many bytes `pb_decode_varint` leaves unread when it fails. */
  function VarintLeft(bs: seq<byte>): nat {
    if |bs| <= 10 then 0 else |bs| - 10
  }

  /** How many bytes the multi-byte loop leaves unread, whether it fails or not: it stops at the byte it rejects. */
  function Loop32Left(bs: seq<byte>, bitpos: nat, result: nat): nat {
    if bs == [] then 0
    else
      match Step32(bs[0], bitpos, result)
      case None => |bs| - 1
      case Some(result') => if bs[0] >= 128 then Loop32Left(bs[1..], (bitpos + 7) % 256, result') else |bs| - 1
  }

  /** The same for `pb_decode_varint32`. */
  function Varint32Left(bs: seq<byte>): nat {
    if bs == [] then 0 else if bs[0] < 128 then |bs| - 1 else Loop32Left(bs[1..], 7, bs[0] % 128)
  }

  lemma {:induction false} GroupsSnoc(bs: seq<byte>, b: byte)
    ensures Groups(bs + [b]) == Groups(bs) + Shl(b % 128, 7 * |bs|)
  {
    if bs == [] {
      assert bs + [b] == [b];
      assert [b][1..] == [];
    } else {
      GroupsSnoc(bs[1..], b);
      assert (bs + [b])[1..] == bs[1..] + [b];
      ShlShl(b % 128, 7 * |bs[1..]|, 7);
      Shl7(Shl(b % 128, 7 * |bs[1..]|));
    }
  }

  /** A 7-bit group shifted to below bit 28 is not truncated ... */
  lemma GroupBelow28(x: nat, i: nat)
    requires x < 128 && 1 <= i <= 3
    ensures Shl(x, 7 * i) < 0x1000_0000
  {
    hide Shl;
    Shl7(x); ShlShl(x, 7, 7); Shl7(128 * x); ShlShl(x, 14, 7); Shl7(0x4000 * x);
  }

  /** ... and at bit 28 its low four bits survive. */
  lemma GroupAt28(x: nat)
    requires x < 128
    ensures Low32(Shl(x, 28)) == Shl(x % 16, 28)
  {
    hide Shl, Low32;
    Shl28(x); Shl28(x % 16);
    SplitAt16(x);
    Low32Is(0x1000_0000 * x, x / 16, 0x1000_0000 * (x % 16));
  }

  lemma SplitAt16(x: nat)
    ensures 0x1000_0000 * x == TWO32 * (x / 16) + 0x1000_0000 * (x % 16)
  {
    assert x == 16 * (x / 16) + x % 16;
  }

  lemma Low32Is(y: nat, q: nat, r: nat)
    requires y == TWO32 * q + r && r < TWO32
    ensures Low32(y) == r
  {
    Low32Plus(r, q);
  }

  /** Loop invariant of the fast path: after `i` bytes it holds the low 32 bits of the number so far. */
  lemma StepKeepsLowBits(seen: seq<byte>, b: byte)
    requires 1 <= |seen| <= 9
    requires Step32(b, 7 * |seen|, Low32(Groups(seen))).Some?
    ensures Step32(b, 7 * |seen|, Low32(Groups(seen))) == Some(Low32(Groups(seen + [b])))
  {
    hide Shl, BitOr, Groups;
    var i, g, x := |seen|, Groups(seen), b % 128;
    GroupsSnoc(seen, b);
    if i <= 4 {
      GroupsBound(seen);
      Below28(i);
      LowBits(g, x, i);
    } else {
      ShlShl(x, 7 * i - 32, 32);
      Shl32(Shl(x, 7 * i - 32));
      Low32Plus(g, Shl(x, 7 * i - 32));
    }
  }

  lemma LowBits(g: nat, x: nat, i: nat)
    requires 1 <= i <= 4 && x < 128 && g < Pow2(7 * i)
    ensures BitOr(g, Low32(Shl(x, 7 * i))) == Low32(g + Shl(x, 7 * i))
  {
    hide Shl, BitOr;
    Below28(i);
    if i <= 3 {
      GroupBelow28(x, i);
      BitOrDisjoint(g, x, 7 * i);
    } else {
      GroupAt28(x);
      BitOrDisjoint(g, x % 16, 28);
      Shl28(x); Shl28(x % 16);
      SplitAt16(x);
      Low32Is(g + 0x1000_0000 * x, x / 16, g + 0x1000_0000 * (x % 16));
    }
  }

  lemma StepLow(acc: nat, b: byte, i: nat)
    requires 1 <= i <= 4 && acc < Pow2(7 * i)
    ensures Step32(b, 7 * i, acc) == Some(Low32(acc + Shl(b % 128, 7 * i)))
  {
    hide Shl, BitOr, Low32;
    LowBits(acc, b % 128, i);
  }

  lemma Below28(i: nat)
    requires 1 <= i <= 4
    ensures Pow2(7 * i) <= 0x1000_0000
  {
    Shl7(1); ShlShl(1, 7, 7); Shl7(128); ShlShl(1, 14, 7); Shl7(0x4000); Shl28(1);
  }

  /** Run of the fast path from its `|seen|`-th byte on. */
  lemma {:induction false} Loop32Refines(bs: seq<byte>, i: nat)
    requires 1 <= i <= |bs| && i <= 10
    requires forall j :: 0 <= j < i ==> bs[j] >= 128
    requires i < 10 ==> Loop32(bs[i..], 7 * i, Low32(Groups(bs[..i]))).Done?
    ensures i < 10 ==> VarintLen(bs) > 0 ==> VarintLen(bs) <= 10 ==>
      Loop32(bs[i..], 7 * i, Low32(Groups(bs[..i]))) == Done(Low32(Groups(bs[..VarintLen(bs)])), bs[VarintLen(bs)..])
    decreases 10 - i
  {
    hide Step32, Low32, Groups;
    var n := VarintLen(bs);
    if i < 10 && 0 < n <= 10 {
      var b := bs[i];
      assert bs[i..][0] == b && bs[i..][1..] == bs[i + 1..];
      assert bs[..i] + [b] == bs[..i + 1];
      StepKeepsLowBits(bs[..i], b);
      if b >= 128 {
        assert n > i + 1;
        Loop32Refines(bs, i + 1);
      } else {
        assert n == i + 1;
      }
    }
  }

  /** A varint accepted by either loop ends where its first byte without continuation bit is. */
  lemma {:induction false} Loop32Ends(bs: seq<byte>, bitpos: nat, result: nat)
    requires Loop32(bs, bitpos, result).Done?
    ensures VarintLen(bs) > 0 && Loop32(bs, bitpos, result).rest == bs[VarintLen(bs)..]
    decreases |bs|
  {
    if bs[0] >= 128 {
      var result' := Step32(bs[0], bitpos, result).value;
      Loop32Ends(bs[1..], (bitpos + 7) % 256, result');
    }
  }

  /** The fast path refines the 64-bit decoder: what it accepts, the 64-bit decoder accepts exactly when
      it is at most ten bytes long, and then both consume the same bytes and agree modulo 2^32. */
  lemma FastPathRefines(bs: seq<byte>)
    requires DecVarint32(bs).Done?
    ensures VarintLen(bs) > 0 && DecVarint32(bs).rest == bs[VarintLen(bs)..]
    ensures DecVarint(bs).Done? <==> VarintLen(bs) <= 10
    ensures VarintLen(bs) <= 10 ==>
      DecVarint(bs).rest == DecVarint32(bs).rest && DecVarint32(bs).value == Low32(DecVarint(bs).value)
  {
    if bs[0] < 128 {
      assert bs[..1][1..] == [];
      assert Groups(bs[..1]) == bs[0];
    } else {
      Loop32Ends(bs[1..], 7, bs[0] % 128);
      var n := VarintLen(bs);
      if n <= 10 {
        assert bs[..1][1..] == [];
        assert Groups(bs[..1]) == bs[0] % 128;
        Loop32Refines(bs, 1);
        Low32OfLow64(Groups(bs[..n]));
      }
    }
  }

  /** A complete 32-bit varint is read the same way whatever follows. */
  lemma {:induction false} Loop32Append(a: seq<byte>, b: seq<byte>, bitpos: nat, result: nat)
    requires Loop32(a, bitpos, result).Done?
    ensures Loop32(a + b, bitpos, result) == Done(Loop32(a, bitpos, result).value, Loop32(a, bitpos, result).rest + b)
    decreases |a|
  {
    assert (a + b)[0] == a[0] && (a + b)[1..] == a[1..] + b;
    if a[0] >= 128 {
      Loop32Append(a[1..], b, (bitpos + 7) % 256, Step32(a[0], bitpos, result).value);
    }
  }

  lemma DecVarint32Append(a: seq<byte>, b: seq<byte>)
    requires DecVarint32(a).Done?
    ensures DecVarint32(a + b) == Done(DecVarint32(a).value, DecVarint32(a).rest + b)
  {
    assert (a + b)[0] == a[0] && (a + b)[1..] == a[1..] + b;
    if a[0] >= 128 {
      Loop32Append(a[1..], b, 7, a[0] % 128);
    }
  }

  // ---- The fast path on encoder output -------------------------------------------------

  /** The number without its lowest `k` groups of seven bits. */
  function Drop(v: nat, k: nat): nat {
    if k == 0 then v else Drop(v / 128, k - 1)
  }

  /** The groups above the fifth, as the fast path lets them pass: `n` groups of equal bits, and then a one. */
  predicate SignGroups(u: nat, n: nat) {
    if n == 0 then u == 1 else u % 128 in {0, 127} && SignGroups(u / 128, n - 1)
  }

  /** Numbers whose encoding the fast path accepts: those of 32 bits, and those of ten groups with bit 31 set whose
      groups six to nine are each all zeros or all ones. Bits 32 to 34 do not matter. */
  predicate Accepted32(v: nat) {
    v < TWO32 || (Low32(v) >= 0x8000_0000 && SignGroups(Drop(v, 5), 4))
  }

  lemma {:induction false} NoSignGroups(n: nat)
    ensures !SignGroups(0, n)
  {
    if n > 0 { NoSignGroups(n - 1); }
  }

  lemma {:induction false} SignGroupsLarge(u: nat, n: nat)
    requires SignGroups(u, n)
    ensures u >= Pow2(7 * n)
  {
    if n > 0 {
      SignGroupsLarge(u / 128, n - 1);
      Pow2Times128(n - 1);
    }
  }

  lemma {:induction false} DropLarge(v: nat, k: nat, n: nat)
    requires Drop(v, k) >= Pow2(7 * n)
    ensures v >= Pow2(7 * (n + k))
  {
    if k > 0 {
      DropLarge(v / 128, k - 1, n);
      Pow2Times128(n + k - 1);
    }
  }

  /** One turn of the loop beyond the 32nd bit. */
  lemma TailStep(b: byte, i: nat, r: nat)
    requires 5 <= i <= 9
    ensures Step32(b, 7 * i, r) ==
      if b % 128 == 0 || (r >= 0x8000_0000 && b == (if i < 9 then 0xFF else 0x01)) then Some(r) else None
  {}

  lemma TailBound(u: nat, i: nat)
    requires 5 <= i <= 9 && u < Pow2(64 - 7 * i)
    ensures if i == 9 then u < 2 else u / 128 < Pow2(64 - 7 * (i + 1))
  {
    hide Shl;
    if i == 9 {
      DoublePow2(0);
      ShlNothing(1);
    } else {
      ShlShl(1, 64 - 7 * (i + 1), 7);
      Shl7(Pow2(64 - 7 * (i + 1)));
    }
  }

  lemma ShlNothing(x: nat)
    ensures Shl(x, 0) == x
  {}

  /** The fast path, started after `i >= 5` groups, on the encoding of what is left. */
  lemma {:induction false} Loop32OnTail(r: nat, u: nat, i: nat, rest: seq<byte>)
    requires 5 <= i <= 9 && 0 < u < Pow2(64 - 7 * i)
    ensures Loop32(EncVarint(u) + rest, 7 * i, r) ==
      if r >= 0x8000_0000 && SignGroups(u, 9 - i) then Done(r, rest) else Fail
    decreases 10 - i
  {
    hide Loop32, Step32, Shl, Pow2, EncVarint;
    TailBound(u, i);
    EncFirst(u, rest);
    var b: byte := if u < 128 then u else u % 128 + 128;
    var tail := if u < 128 then rest else EncVarint(u / 128) + rest;
    TailStep(b, i, r);
    if u < 128 {
      if i < 9 { NoSignGroups(8 - i); }
    } else {
      Loop32OnTail(r, u / 128, i + 1, rest);
    }
    if Step32(b, 7 * i, r).Some? { Loop32Unfold(b, tail, 7 * i, r, r); } else { Loop32Stops(b, tail, 7 * i, r); }
  }

  lemma EncFirst(u: nat, rest: seq<byte>)
    ensures EncVarint(u) + rest ==
      if u < 128 then [u] + rest else [u % 128 + 128] + (EncVarint(u / 128) + rest)
  {}

  lemma Loop32Stops(b: byte, tail: seq<byte>, bitpos: nat, result: nat)
    requires Step32(b, bitpos, result).None?
    ensures Loop32([b] + tail, bitpos, result) == Fail
  {}

  lemma Loop32Unfold(b: byte, tail: seq<byte>, bitpos: nat, result: nat, result': nat)
    requires bitpos < 200 && Step32(b, bitpos, result) == Some(result')
    ensures b >= 128 ==> Loop32([b] + tail, bitpos, result) == Loop32(tail, bitpos + 7, result')
    ensures b < 128 && bitpos == 28 && b >= 16 ==> Loop32([b] + tail, bitpos, result) == Fail
    ensures b < 128 && (bitpos != 28 || b < 16) ==> Loop32([b] + tail, bitpos, result) == Done(result', tail)
  {
    hide Step32;
    assert ([b] + tail)[0] == b && ([b] + tail)[1..] == tail;
  }

  /** The fast path, started after `1 <= i <= 4` groups, on the encoding of what is left. */
  lemma {:induction false} Loop32OnEncoding(acc: nat, u: nat, i: nat, rest: seq<byte>)
    requires 1 <= i <= 4 && acc < Pow2(7 * i) && 0 < u < Pow2(64 - 7 * i)
    ensures var v := acc + Shl(u, 7 * i);
      Loop32(EncVarint(u) + rest, 7 * i, acc) ==
        if u < Pow2(32 - 7 * i) then Done(v, rest)
        else if Low32(v) >= 0x8000_0000 && SignGroups(Drop(u, 5 - i), 4) then Done(Low32(v), rest)
        else Fail
    decreases 10 - i
  {
    hide Shl, Step32, Low32, Loop32, SignGroups;
    var e := EncVarint(u) + rest;
    var x := u % 128;
    StepLow(acc, e[0], i);
    SmallTail(acc, u, i);
    Loop32Unfold(e[0], e[1..], 7 * i, acc, Low32(acc + Shl(x, 7 * i)));
    assert e == [e[0]] + e[1..];
    if u < 128 {
      assert e[0] == u && e[1..] == rest;
      if i == 4 { NoSignGroups(4); }
    } else {
      assert e[0] == x + 128 && e[1..] == EncVarint(u / 128) + rest;
      ShlShl(1, 64 - 7 * (i + 1), 7);
      Shl7(Pow2(64 - 7 * (i + 1)));
      if i == 4 {
        LowOfTail(acc, u);
        Loop32OnTail(Low32(acc + Shl(x, 28)), u / 128, 5, rest);
      } else {
        NextGroup(acc, u, i);
        Loop32OnEncoding(acc + Shl(x, 7 * i), u / 128, i + 1, rest);
      }
    }
  }

  lemma LowOfTail(acc: nat, u: nat)
    ensures Low32(acc + Shl(u, 28)) == Low32(acc + Shl(u % 128, 28))
  {
    hide Shl, Low32;
    Shl28(u); Shl28(u % 128);
    Low32Plus(acc + 0x1000_0000 * (u % 128), 8 * (u / 128));
  }

  lemma SmallTail(acc: nat, u: nat, i: nat)
    requires 1 <= i <= 4 && acc < Pow2(7 * i)
    ensures u < 128 ==> (u < Pow2(32 - 7 * i) <==> i <= 3 || u < 16)
    ensures u >= 128 && i == 4 ==> u >= Pow2(4)
    ensures u < 128 && u < Pow2(32 - 7 * i) ==> Low32(acc + Shl(u, 7 * i)) == acc + Shl(u, 7 * i)
  {
    hide Shl;
    Shl7(1);
    Below28(i);
    Shl28(u);
    if i <= 3 {
      ShlShl(1, 7, 25 - 7 * i);
      ShlAtLeast(128, 25 - 7 * i);
      if u < 128 { GroupBelow28(u, i); }
    }
  }

  lemma ShlAtLeast(x: nat, k: nat)
    ensures Shl(x, k) >= x
  {}

  lemma NextGroup(acc: nat, u: nat, i: nat)
    requires 1 <= i <= 3 && acc < Pow2(7 * i) && u >= 128
    ensures Low32(acc + Shl(u % 128, 7 * i)) == acc + Shl(u % 128, 7 * i) < Pow2(7 * (i + 1))
    ensures acc + Shl(u % 128, 7 * i) + Shl(u / 128, 7 * (i + 1)) == acc + Shl(u, 7 * i)
    ensures u < Pow2(32 - 7 * i) <==> u / 128 < Pow2(32 - 7 * (i + 1))
  {
    hide Shl;
    var x := u % 128;
    GroupBelow28(x, i);
    Below28(i);
    Pow2Times128(i);
    Shl7(1);
    ShlShl(1, 7, 7 * i);
    ShlAdd(x, 1, 7 * i);
    ShlLess(128, x + 1, 7 * i);
    Shl7(u / 128);
    ShlShl(u / 128, 7, 7 * i);
    ShlAdd(128 * (u / 128), x, 7 * i);
    ShlShl(1, 32 - 7 * (i + 1), 7);
    Shl7(Pow2(32 - 7 * (i + 1)));
  }

  /** The fast path on the encoding of any 64-bit number: exactly the accepted ones pass, with their low 32 bits; below
      2^63 these are the numbers of 32 bits. */
  lemma Varint32RoundTrip(v: nat, rest: seq<byte>)
    requires v < TWO64
    ensures DecVarint32(EncVarint(v) + rest) == if Accepted32(v) then Done(Low32(v), rest) else Fail
    ensures v < 0x8000_0000_0000_0000 ==> DecVarint32(EncVarint(v) + rest) == if v < TWO32 then Done(v, rest) else Fail
  {
    hide Shl, Pow2, Loop32, SignGroups, Low32, EncVarint, Drop;
    SmallLow32(v);
    EncFirst(v, rest);
    FirstGroup(v);
    NoneBelow63(v);
    if v >= 128 {
      var tail := EncVarint(v / 128) + rest;
      assert ([v % 128 + 128] + tail)[1..] == tail;
      Loop32OnEncoding(v % 128, v / 128, 1, rest);
    }
  }

  lemma FirstGroup(v: nat)
    requires v < TWO64
    ensures v % 128 < Pow2(7) && v / 128 < Pow2(57) && v % 128 + Shl(v / 128, 7) == v
    ensures (v / 128 < Pow2(25) <==> v < TWO32) && Drop(v, 5) == Drop(v / 128, 4)
  {
    hide Shl;
    Shl7(1); Shl7(v / 128);
    Shl63(1); DoublePow2(63); Shl7(Pow2(57)); ShlShl(1, 57, 7);
    Shl32(1); Shl7(Pow2(25)); ShlShl(1, 25, 7);
  }

  lemma NoneBelow63(v: nat)
    ensures SignGroups(Drop(v, 5), 4) ==> v >= 0x8000_0000_0000_0000
  {
    hide Shl, SignGroups, Drop;
    if SignGroups(Drop(v, 5), 4) {
      SignGroupsLarge(Drop(v, 5), 4);
      DropLarge(v, 5, 4);
      Shl63(1);
    }
  }

  lemma SmallLow32(v: nat)
    ensures v < TWO32 ==> Low32(v) == v
  {}

  lemma DoublePow2(k: nat)
    ensures Pow2(k + 1) == 2 * Pow2(k)
  {}

  /** A negative int32, which the encoder writes sign-extended to 64 bits, comes back as its low 32 bits. */
  lemma NegativeVarint32RoundTrip(x: int, rest: seq<byte>)
    requires -0x8000_0000 <= x < 0
    ensures DecVarint32(EncVarint(TWO64 + x) + rest) == Done(TWO32 + x, rest)
  {
    hide DecVarint32, EncVarint, Low32;
    var v := TWO64 + x;
    Varint32RoundTrip(v, rest);
    Low32Plus(TWO32 + x, TWO32 - 1);
    SmallLow32(TWO32 + x);
    assert Drop(v, 5) == 0x1FFF_FFFF by { DropNegative(v); }
    OnesAreSigns();
  }

  lemma DropNegative(v: nat)
    requires TWO64 - 0x8000_0000 <= v < TWO64
    ensures Drop(v, 5) == 0x1FFF_FFFF
  {
    var a := v / 128;
    var b := a / 128;
    var c := b / 128;
    var d := c / 128;
    assert Drop(v, 5) == Drop(a, 4) == Drop(b, 3);
    assert Drop(b, 3) == Drop(c, 2);
    assert Drop(c, 2) == Drop(d, 1);
    assert Drop(d, 1) == Drop(d / 128, 0);
  }

  lemma OnesAreSigns()
    ensures SignGroups(0x1FFF_FFFF, 4)
  {
    assert SignGroups(0xFF, 1);
    assert SignGroups(0x7FFF, 2);
    assert SignGroups(0x3F_FFFF, 3);
  }

  // ---- Two's complement and zigzag -----------------------------------------------------

  /** Reinterpretation of a 64-bit word as a signed number. */
  function ToSigned(w: nat, size: nat): int {
    if w < size / 2 then w else w - size
  }

  /** `pb_encode_svarint`: what is passed on to the varint encoder. */
  function ZigZag(x: int): nat
    requires -0x8000_0000_0000_0000 <= x < 0x8000_0000_0000_0000
  {
    var word := x % TWO64;
    if x < 0 then TWO64 - 1 - word * 2 % TWO64 else word * 2 % TWO64
  }

  /** `pb_decode_svarint`: what is made of the decoded varint. */
  function UnZigZag(w: nat): int
    requires w < TWO64
  {
    if w % 2 == 1 then ToSigned(TWO64 - 1 - w / 2, TWO64) else ToSigned(w / 2, TWO64)
  }

  /** Zigzag sends int64 to uint64, numbers of small magnitude to small words ... */
  lemma ZigZagValue(x: int)
    requires -0x8000_0000_0000_0000 <= x < 0x8000_0000_0000_0000
    ensures ZigZag(x) == if x < 0 then -2 * x - 1 else 2 * x
  {
    assert x % TWO64 == if x < 0 then x + TWO64 else x;
  }

  /** ... one to one, through the varint codec and back, `Int64.min` included ... */
  lemma ZigZagRoundTrip(x: int, rest: seq<byte>)
    requires -0x8000_0000_0000_0000 <= x < 0x8000_0000_0000_0000
    ensures ZigZag(x) < TWO64 && UnZigZag(ZigZag(x)) == x
    ensures DecVarint(EncVarint(ZigZag(x)) + rest) == Done(ZigZag(x), rest)
  {
    ZigZagValue(x);
    VarintRoundTrip(ZigZag(x), rest);
  }

  /** ... and onto. */
  lemma UnZigZagRoundTrip(w: nat)
    requires w < TWO64
    ensures -0x8000_0000_0000_0000 <= UnZigZag(w) < 0x8000_0000_0000_0000 && ZigZag(UnZigZag(w)) == w
  {
    ZigZagValue(UnZigZag(w));
  }
}
