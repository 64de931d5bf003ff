/** Identifiers of the DHT and their XOR distance (dht/helpers.go). */
module Ids {

  const ID_BYTES := 64
  const ID_BITS := 512

  type byte = bv8
  type TypeID = s: seq<byte> | |s| == ID_BYTES witness seq(ID_BYTES, _ => 0)

  // ---------------------------------------------------------------- numbers

  /** The number a big-endian byte string stands for. */
  function Value(s: seq<byte>): nat {
    if s == [] then 0 else Value(s[..|s| - 1]) * 256 + s[|s| - 1] as int
  }

  function Pow2(n: nat): nat {
    if n == 0 then 1 else 2 * Pow2(n - 1)
  }

  lemma Pow2Byte(n: nat)
    ensures Pow2(n + 8) == 256 * Pow2(n)
  {
    assert Pow2(n + 2) == 4 * Pow2(n);
    assert Pow2(n + 4) == 4 * Pow2(n + 2);
    assert Pow2(n + 6) == 4 * Pow2(n + 4);
    assert Pow2(n + 8) == 4 * Pow2(n + 6);
  }

  lemma {:induction false} Pow2Monotone(m: nat, n: nat)
    requires m <= n
    ensures 1 <= Pow2(m) <= Pow2(n)
    decreases n
  {
    if m < n {
      Pow2Monotone(m, n - 1);
    } else if n > 0 {
      Pow2Monotone(n - 1, n - 1);
    }
  }

  lemma ByteOrder(a: byte, b: byte)
    ensures a < b <==> a as int < b as int
    ensures a == b <==> a as int == b as int
  {
  }

  // ---------------------------------------------------------------- distance

  /** The first byte that differs decides the order of the values. */
  lemma {:induction false} FirstDifferenceDecides(a: seq<byte>, b: seq<byte>, i: nat)
    requires |a| == |b| && i < |a| && a[..i] == b[..i] && a[i] < b[i]
    ensures Value(a) < Value(b)
  {
    var n := |a| - 1;
    if i == n {
      ByteOrder(a[i], b[i]);
    } else {
      assert a[..n][..i] == a[..i] && b[..n][..i] == b[..i];
      FirstDifferenceDecides(a[..n], b[..n], i);
    }
  }

  lemma FirstDifference(a: seq<byte>, b: seq<byte>) returns (i: nat)
    requires |a| == |b| && a != b
    ensures i < |a| && a[..i] == b[..i] && a[i] != b[i]
  {
    i := 0;
    while a[i] == b[i]
      invariant i < |a| && a[..i] == b[..i]
      decreases |a| - i
    {
      i := i + 1;
    }
  }

  /** Different byte strings of one length have different values. */
  lemma ValueInjective(a: seq<byte>, b: seq<byte>)
    requires |a| == |b| && Value(a) == Value(b)
    ensures a == b
  {
    if a != b {
      var i := FirstDifference(a, b);
      if a[i] < b[i] {
        FirstDifferenceDecides(a, b, i);
      } else {
        FirstDifferenceDecides(b, a, i);
      }
    }
  }

  function XorByte(a: byte, b: byte): byte {
    a ^ b
  }

  function Xor(a: seq<byte>, b: seq<byte>): (r: seq<byte>)
    requires |a| == |b|
    ensures |r| == |a| && forall i | 0 <= i < |a| :: r[i] == XorByte(a[i], b[i])
  {
    seq(|a|, i requires 0 <= i < |a| => XorByte(a[i], b[i]))
  }

  lemma XorByteCancels(t: byte, a: byte, b: byte)
    ensures XorByte(t, a) == XorByte(t, b) <==> a == b
    ensures XorByte(t, a) == 0 <==> t == a
  {}

  /** The distance of Kademlia: the XOR of two IDs read as a number. */
  function Dist(target: TypeID, id: TypeID): nat {
    Value(Xor(target, id))
  }

  lemma XorZeroAt(t: seq<byte>, a: seq<byte>, i: nat)
    requires |t| == |a| && i < |t|
    ensures Xor(t, a)[i] == 0 <==> t[i] == a[i]
  {}

  lemma XorInjective(t: seq<byte>, a: seq<byte>, b: seq<byte>)
    requires |t| == |a| == |b| && Xor(t, a) == Xor(t, b)
    ensures a == b
  {}

  /** Distinct IDs are at distinct distances. */
  lemma DistInjective(target: TypeID, a: TypeID, b: TypeID)
    requires Dist(target, a) == Dist(target, b)
    ensures a == b
  {
    ValueInjective(Xor(target, a), Xor(target, b));
    XorInjective(target, a, b);
  }

  method XorDistance(id1: TypeID, id2: TypeID) returns (result: array<byte>)
    ensures fresh(result) && result[..] == Xor(id1, id2)
  {
    result := new byte[ID_BYTES];
    for i := 0 to ID_BYTES
      invariant forall k | 0 <= k < i :: result[k] == XorByte(id1[k], id2[k])
    {
      result[i] := XorByte(id1[i], id2[i]);
    }
  }

  /** Byte-wise comparison orders IDs as 512-bit numbers. */
  method Compare(id1: seq<byte>, id2: seq<byte>) returns (c: int)
    requires |id1| == |id2|
    ensures c == (if Value(id1) < Value(id2) then -1 else if Value(id1) > Value(id2) then 1 else 0)
  {
    for i := 0 to |id1|
      invariant id1[..i] == id2[..i]
    {
      if id1[i] < id2[i] {
        FirstDifferenceDecides(id1, id2, i);
        return -1;
      } else if id1[i] > id2[i] {
        FirstDifferenceDecides(id2, id1, i);
        return 1;
      }
    }
    assert id1 == id1[..|id1|] && id2 == id2[..|id2|];
    return 0;
  }

  /** True exactly when `id2` is strictly nearer to the target than `id1`. */
  method IsCloser(target: TypeID, id1: TypeID, id2: TypeID) returns (id2Closer: bool)
    ensures id2Closer <==> Dist(target, id2) < Dist(target, id1)
  {
    var id1C := XorDistance(target, id1);
    var id2C := XorDistance(target, id2);
    var c := Compare(id1C[..], id2C[..]);
    return c > 0;
  }

  // ---------------------------------------------------------------- common prefixes

  /** `bits.LeadingZeros8` */
  function LeadingZeros8(x: byte): nat {
    if x & 0x80 != 0 then 0
    else if x & 0x40 != 0 then 1
    else if x & 0x20 != 0 then 2
    else if x & 0x10 != 0 then 3
    else if x & 0x08 != 0 then 4
    else if x & 0x04 != 0 then 5
    else if x & 0x02 != 0 then 6
    else if x & 0x01 != 0 then 7
    else 8
  }

  lemma LeadingZerosRange(x: byte)
    requires x != 0
    ensures LeadingZeros8(x) <= 7
    ensures Pow2(7 - LeadingZeros8(x)) <= x as int < Pow2(8 - LeadingZeros8(x))
  {
    assert Pow2(0) == 1 && Pow2(1) == 2 && Pow2(2) == 4 && Pow2(3) == 8 && Pow2(4) == 16;
    assert Pow2(5) == 32 && Pow2(6) == 64 && Pow2(7) == 128 && Pow2(8) == 256;
    ByteOrder(x, 0x80); ByteOrder(x, 0x40); ByteOrder(x, 0x20); ByteOrder(x, 0x10);
    ByteOrder(x, 0x08); ByteOrder(x, 0x04); ByteOrder(x, 0x02); ByteOrder(x, 0x01);
  }

  /** The position of the highest bit of a number whose first `i` bytes are zero. */
  lemma {:induction false} HighestBit(x: seq<byte>, i: nat)
    requires i < |x| && x[i] != 0 && forall k | 0 <= k < i :: x[k] == 0
    ensures var k := 8 * i + LeadingZeros8(x[i]);
            k < 8 * |x| && Pow2(8 * |x| - 1 - k) <= Value(x) < Pow2(8 * |x| - k)
  {
    hide LeadingZeros8, Pow2;
    var n := |x| - 1;
    var k := 8 * i + LeadingZeros8(x[i]);
    LeadingZerosRange(x[i]);
    if i == n {
      ZerosValue(x[..n]);
    } else {
      HighestBit(x[..n], i);
      Pow2Byte(8 * n - 1 - k);
      Pow2Byte(8 * n - k);
    }
  }

  lemma {:induction false} ZerosValue(x: seq<byte>)
    requires forall k | 0 <= k < |x| :: x[k] == 0
    ensures Value(x) == 0
  {
    if x != [] {
      ZerosValue(x[..|x| - 1]);
    }
  }

  /** `k` is the number of leading bits two IDs share, told by their distance alone. */
  ghost predicate SharesBits(id1: TypeID, id2: TypeID, k: nat) {
    if id1 == id2 then k == ID_BITS
    else k < ID_BITS && Pow2(ID_BITS - 1 - k) <= Dist(id1, id2) < Pow2(ID_BITS - k)
  }

  method CommonLeadingBits(id1: TypeID, id2: TypeID) returns (inCommon: nat)
    ensures SharesBits(id1, id2, inCommon)
  {
    inCommon := 0;
    ghost var x := Xor(id1, id2);
    for i := 0 to ID_BYTES
      invariant inCommon == 8 * i
      invariant forall k | 0 <= k < i :: x[k] == 0
    {
      var xored := XorByte(id1[i], id2[i]);
      assert xored == x[i];
      if xored != 0 {
        inCommon := inCommon + LeadingZeros8(xored);
        HighestBit(x, i);
        if id1 == id2 { assert false; }
        return;
      }
      inCommon := inCommon + 8;
    }
    forall k | 0 <= k < ID_BYTES ensures id1[k] == id2[k] {
      XorZeroAt(id1, id2, k);
    }
    assert id1 == id2;
  }

  /** Two IDs share one number of leading bits. */
  lemma SharesBitsUnique(id1: TypeID, id2: TypeID, j: nat, k: nat)
    requires SharesBits(id1, id2, j) && SharesBits(id1, id2, k)
    ensures j == k
  {
    if j < k {
      Pow2Monotone(ID_BITS - k, ID_BITS - 1 - j);
    } else if k < j {
      Pow2Monotone(ID_BITS - j, ID_BITS - 1 - k);
    }
  }

  /** A longer common prefix with the target means strictly closer. */
  lemma LongerPrefixIsCloser(target: TypeID, a: TypeID, b: TypeID, j: nat, k: nat)
    requires SharesBits(target, a, j) && SharesBits(target, b, k) && j < k
    ensures Dist(target, b) < Dist(target, a)
  {
    if target == b {
      SelfDistance(target);
      Pow2Monotone(0, ID_BITS - 1 - j);
    } else {
      Pow2Monotone(ID_BITS - k, ID_BITS - 1 - j);
    }
  }

  lemma SelfDistance(id: TypeID)
    ensures Dist(id, id) == 0
  {
    forall k | 0 <= k < ID_BYTES ensures Xor(id, id)[k] == 0 { XorZeroAt(id, id, k); }
    ZerosValue(Xor(id, id));
  }

  // ---------------------------------------------------------------- random IDs

  /** IDs equal before byte `q` share `8 * q` bits and those that byte adds. */
  lemma SharesBitsFrom(id1: TypeID, id2: TypeID, q: nat)
    requires q < ID_BYTES && id1[..q] == id2[..q] && id1[q] != id2[q]
    ensures SharesBits(id1, id2, 8 * q + LeadingZeros8(XorByte(id1[q], id2[q])))
  {
    var x := Xor(id1, id2);
    forall k | 0 <= k < q ensures x[k] == 0 {
      assert id1[..q][k] == id2[..q][k];
      XorZeroAt(id1, id2, k);
    }
    XorZeroAt(id1, id2, q);
    HighestBit(x, q);
  }

  /** The byte in which a random ID leaves its base: `r` bits kept, the next one flipped, the rest random. */
  function Mixed(base: byte, fill: byte, r: nat): byte
    requires r < 8
  {
    var b1: byte := 0x80 >> r;
    var kept := if r > 0 then (fill & (0xFF >> r)) | (base & !(0xFF >> r)) else fill;
    (kept & !b1) | (!(base & b1) & b1)
  }

  lemma MixedBits(base: byte, fill: byte, r: nat)
    requires r < 8
    ensures var x := XorByte(base, Mixed(base, fill, r)); x & (0x80 >> r) != 0 && x & !(0xFF >> r) == 0
  {}

  lemma LeadingAt(x: byte, r: nat)
    requires r < 8 && x & (0x80 >> r) != 0 && x & !(0xFF >> r) == 0
    ensures x != 0 && LeadingZeros8(x) == r
  {}

  lemma MixedByte(base: byte, fill: byte, r: nat)
    requires r < 8
    ensures var x := XorByte(base, Mixed(base, fill, r)); x != 0 && LeadingZeros8(x) == r
  {
    hide Mixed, LeadingZeros8;
    MixedBits(base, fill, r);
    LeadingAt(XorByte(base, Mixed(base, fill, r)), r);
  }

  lemma MixedLow(base: byte, fill: byte, r: nat)
    requires r < 8
    ensures LowBits(Mixed(base, fill, r), r) == LowBits(fill, r)
  {}

  lemma MixedShares(base: TypeID, fill: byte, generated: TypeID, q: nat, r: nat)
    requires q < ID_BYTES && r < 8 && generated[..q] == base[..q] && generated[q] == Mixed(base[q], fill, r)
    ensures SharesBits(base, generated, 8 * q + r)
  {
    hide LeadingZeros8, Mixed, SharesBits;
    MixedByte(base[q], fill, r);
    XorByteCancels(base[q], generated[q], generated[q]);
    SharesBitsFrom(base, generated, q);
  }

  /** The bits of `b` after bit `r`, counted from the highest. */
  function LowBits(b: byte, r: nat): byte
    requires r < 8
  {
    b & (0x7F >> r)
  }

  /** An ID that shares exactly `leadingBitsInCommon` bits with `base`; `fill` is the random draw, which
      decides all bits after the first that differs. */
  method RandNodeID(base: TypeID, leadingBitsInCommon: nat, fill: TypeID) returns (generated: seq<byte>)
    requires leadingBitsInCommon < ID_BITS
    ensures |generated| == ID_BYTES && SharesBits(base, generated, leadingBitsInCommon)
    ensures forall i | leadingBitsInCommon / 8 < i < ID_BYTES :: generated[i] == fill[i]
    ensures LowBits(generated[leadingBitsInCommon / 8], leadingBitsInCommon % 8)
            == LowBits(fill[leadingBitsInCommon / 8], leadingBitsInCommon % 8)
  {
    hide SharesBits, LowBits;
    var buf := new byte[ID_BYTES](i requires 0 <= i < ID_BYTES => fill[i]);
    var q, r := leadingBitsInCommon / 8, leadingBitsInCommon % 8;
    for i := 0 to q
      invariant buf[..i] == base[..i]
      invariant forall k | q <= k < ID_BYTES :: buf[k] == fill[k]
    {
      buf[i] := base[i];
    }
    var b1: byte := 0x80 >> r;
    var b2 := base[q] & b1;
    b2 := !b2;
    b2 := b2 & b1;
    if r > 0 {
      var b: byte := 0xFF >> r;
      buf[q] := buf[q] & b;
      buf[q] := buf[q] | (base[q] & !b);
    }
    buf[q] := buf[q] & !b1;
    buf[q] := buf[q] | b2;
    generated := buf[..];
    assert generated[..q] == buf[..q];
    MixedShares(base, fill[q], generated, q, r);
    MixedLow(base[q], fill[q], r);
  }
}
