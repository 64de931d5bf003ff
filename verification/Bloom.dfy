/**
 The Bloom filter (bloomfilter/bloomfilter.go) down to its 64-bit words. `mInBits` is a rounded-down
 natural logarithm of m in the source; here it is any b with 2^b <= m. The three hash functions are
 arbitrary; what is modelled of them is the running state that `Reset` and `Write` change.
 */
module Bloom {
  import opened Arithmetic
  import opened Words
  import opened Ids

  // ---------------------------------------------------------------- bitwise operators

  /** Go's `a & b` on unsigned words. */
  function And(a: nat, b: nat): nat {
    if a == 0 || b == 0 then 0 else 2 * And(a / 2, b / 2) + (if a % 2 == 1 && b % 2 == 1 then 1 else 0)
  }

  /** Go's `a | b` on unsigned words. */
  function Or(a: nat, b: nat): nat {
    if a == 0 then b else if b == 0 then a
    else 2 * Or(a / 2, b / 2) + (if a % 2 == 1 || b % 2 == 1 then 1 else 0)
  }

  lemma AndStep(a: nat, b: nat)
    ensures And(a, b) == 2 * And(a / 2, b / 2) + (if a % 2 == 1 && b % 2 == 1 then 1 else 0)
  {}

  lemma OrStep(a: nat, b: nat)
    ensures Or(a, b) == 2 * Or(a / 2, b / 2) + (if a % 2 == 1 || b % 2 == 1 then 1 else 0)
  {}

  predicate TestBit(w: nat, k: nat) {
    And(w, Pow2(k)) != 0
  }

  lemma TestBitStep(w: nat, k: nat)
    ensures TestBit(w, k) <==> if k == 0 then w % 2 == 1 else TestBit(w / 2, k - 1)
  {
    AndStep(w, Pow2(k));
    if k == 0 {
      assert And(w / 2, 0) == 0;
    }
  }

  /** Or-ing in `1 << i` sets bit i and no other. */
  lemma {:induction false} OrBit(w: nat, i: nat, j: nat)
    ensures TestBit(Or(w, Pow2(i)), j) <==> TestBit(w, j) || i == j
    decreases i, j
  {
    var r := Or(w, Pow2(i));
    OrStep(w, Pow2(i));
    TestBitStep(w, j);
    TestBitStep(r, j);
    if i == 0 {
      assert Pow2(i) / 2 == 0 && r / 2 == w / 2;
    } else {
      assert Pow2(i) / 2 == Pow2(i - 1) && r / 2 == Or(w / 2, Pow2(i - 1));
      if j > 0 {
        OrBit(w / 2, i - 1, j - 1);
      }
    }
  }

  lemma {:induction false} OrStaysBelow(w: nat, i: nat, n: nat)
    requires w < Pow2(n) && i < n
    ensures Or(w, Pow2(i)) < Pow2(n)
  {
    hide Or, Pow2;
    Pow2Half(n);
    Pow2Half(i);
    if i == 0 {
      OrZero(w / 2);
    } else {
      OrStaysBelow(w / 2, i - 1, n - 1);
    }
    OrHalf(w, Pow2(i), Pow2(n - 1));
  }

  lemma OrHalf(w: nat, p: nat, m: nat)
    requires Or(w / 2, p / 2) < m
    ensures Or(w, p) < 2 * m
  {
    OrStep(w, p);
  }

  lemma Pow2Half(n: nat)
    ensures if n == 0 then Pow2(n) == 1 && Pow2(n) / 2 == 0
            else Pow2(n) == 2 * Pow2(n - 1) && Pow2(n) / 2 == Pow2(n - 1)
  {}

  lemma OrZero(w: nat)
    ensures Or(w, 0) == w
  {}

  lemma {:induction false} ZeroHasNoBits(k: nat)
    ensures !TestBit(0, k)
  {}

  lemma WordSize()
    ensures Pow2(64) == WORD64
  {
    Pow2Byte(0);
    Pow2Byte(8);
    Pow2Byte(16);
    Pow2Byte(24);
    Pow2Byte(32);
    Pow2Byte(40);
    Pow2Byte(48);
    Pow2Byte(56);
  }

  // ---------------------------------------------------------------- the mask

  lemma {:induction false} MaskGrows(i: nat)
    ensures 0 < Pow2(i) && Or(Pow2(i) - 1, Pow2(i)) == Pow2(i + 1) - 1
  {
    Pow2Monotone(0, i);
    OrStep(Pow2(i) - 1, Pow2(i));
    if i > 0 {
      MaskGrows(i - 1);
      assert (Pow2(i) - 1) / 2 == Pow2(i - 1) - 1;
    }
  }

  method Mask(bits: nat) returns (mask: nat)
    ensures 0 < Pow2(bits) && mask == Pow2(bits) - 1
  {
    mask := 0;
    Pow2Monotone(0, bits);
    for i := 0 to bits
      invariant mask == Pow2(i) - 1
    {
      MaskGrows(i);
      mask := Or(mask, Pow2(i));
    }
  }

  lemma RemainderOfDouble(n: nat, m: nat)
    requires m > 0
    ensures n % (2 * m) == 2 * (n / 2 % m) + n % 2
  {
    var k, r := n / 2 / m, n / 2 % m;
    assert n == 2 * (m * k + r) + n % 2;
    assert n == (2 * m) * k + (2 * r + n % 2);
    RemainderUnique(n, 2 * m, k, 2 * r + n % 2);
  }

  /** Masking with b low bits is the remainder modulo 2^b. */
  lemma {:induction false} MaskIsRemainder(h: nat, b: nat)
    ensures 0 < Pow2(b) && And(h, Pow2(b) - 1) == h % Pow2(b)
  {
    Pow2Monotone(0, b);
    if b > 0 {
      MaskIsRemainder(h / 2, b - 1);
      MaskStep(h, Pow2(b - 1));
    }
  }

  lemma MaskStep(h: nat, m: nat)
    requires m > 0 && And(h / 2, m - 1) == h / 2 % m
    ensures And(h, 2 * m - 1) == h % (2 * m)
  {
    hide And;
    AndStep(h, 2 * m - 1);
    assert (2 * m - 1) / 2 == m - 1 && (2 * m - 1) % 2 == 1;
    RemainderOfDouble(h, m);
  }

  // ---------------------------------------------------------------- the bit array

  /** Bit number v of an array of 64-bit words. */
  predicate Bit(words: seq<nat>, v: nat) {
    v / 64 < |words| && TestBit(words[v / 64], v % 64)
  }

  lemma SamePlace(p: nat, v: nat)
    ensures p / 64 == v / 64 && p % 64 == v % 64 <==> p == v
  {}

  /** Or-ing one bit into its word adds that bit and changes no other. */
  lemma SetOneBit(words: seq<nat>, p: nat, v: nat)
    requires p / 64 < |words|
    ensures Bit(words[p / 64 := Or(words[p / 64], Pow2(p % 64))], v) <==> Bit(words, v) || v == p
  {
    SamePlace(p, v);
    OrBit(words[p / 64], p % 64, v % 64);
  }

  // ---------------------------------------------------------------- positions

  type Sum = seq<byte> -> uint64

  function Place(sum: Sum, input: seq<byte>, b: nat): (v: nat)
    ensures v < Pow2(b)
  {
    Pow2Monotone(0, b);
    sum(input) % Pow2(b)
  }

  /** v is the place of `input` under one of the first `count` functions. */
  predicate Hit(sums: seq<Sum>, count: nat, input: seq<byte>, b: nat, v: nat)
    requires count <= |sums|
  {
    exists j | 0 <= j < count :: v == Place(sums[j], input, b)
  }

  /** The positions of an element: under every function, plain and after a leading byte 1. */
  predicate Marks(sums: seq<Sum>, elem: seq<byte>, b: nat, v: nat) {
    Hit(sums, |sums|, elem, b, v) || Hit(sums, |sums|, [1] + elem, b, v)
  }

  /** The positions are the hash values of the element, and of the element after a byte 1, modulo 2^b. */
  lemma MarksByHash(sums: seq<Sum>, elem: seq<byte>, b: nat, v: nat)
    ensures 0 < Pow2(b)
    ensures Marks(sums, elem, b, v) <==>
              exists j | 0 <= j < |sums| :: v == sums[j](elem) % Pow2(b) || v == sums[j]([1] + elem) % Pow2(b)
  {
    Pow2Monotone(0, b);
    forall sum: Sum, input ensures Place(sum, input, b) == sum(input) % Pow2(b) {}
  }

  /** v is a position of one of the elements. */
  ghost predicate Covered(sums: seq<Sum>, elements: set<seq<byte>>, b: nat, v: nat) {
    exists e | e in elements :: Marks(sums, e, b, v)
  }

  /** The element reads as present: all its positions are set. */
  ghost predicate AllSet(words: seq<nat>, sums: seq<Sum>, elem: seq<byte>, b: nat) {
    forall v: nat | Marks(sums, elem, b, v) :: Bit(words, v)
  }

  /** `now` is `was` with the places of `input` under the first `count` functions set. */
  ghost predicate Added(now: seq<nat>, was: seq<nat>, sums: seq<Sum>, count: nat, input: seq<byte>, b: nat)
    requires count <= |sums|
  {
    forall v: nat :: Bit(now, v) <==> Bit(was, v) || Hit(sums, count, input, b, v)
  }

  lemma AddedStep(now: seq<nat>, before: seq<nat>, was: seq<nat>, sums: seq<Sum>, count: nat, input: seq<byte>, b: nat)
    requires count < |sums| && Added(before, was, sums, count, input, b)
    requires forall v: nat :: Bit(now, v) <==> Bit(before, v) || v == Place(sums[count], input, b)
    ensures Added(now, was, sums, count + 1, input, b)
  {}

  /** The set bits are exactly the positions of the elements. */
  ghost predicate Represents(words: seq<nat>, sums: seq<Sum>, elements: set<seq<byte>>, b: nat) {
    forall v: nat :: Bit(words, v) <==> Covered(sums, elements, b, v)
  }

  lemma PresentAddsNothing(words: seq<nat>, sums: seq<Sum>, elements: set<seq<byte>>, e: seq<byte>, b: nat)
    requires Represents(words, sums, elements, b) && AllSet(words, sums, e, b)
    ensures Represents(words, sums, elements + {e}, b)
  {}

  lemma BothGroupsAdded(now: seq<nat>, between: seq<nat>, was: seq<nat>, sums: seq<Sum>, elements: set<seq<byte>>,
                        e: seq<byte>, b: nat)
    requires Represents(was, sums, elements, b)
    requires Added(between, was, sums, |sums|, e, b) && Added(now, between, sums, |sums|, [1] + e, b)
    ensures Represents(now, sums, elements + {e}, b)
  {}

  lemma SizeWith(elements: set<seq<byte>>, e: seq<byte>)
    ensures |elements| <= |elements + {e}| <= |elements| + 1
  {
    if e in elements {
      assert elements + {e} == elements;
    }
  }

  ghost predicate Overlaps(sums: seq<Sum>, elements: set<seq<byte>>, e: seq<byte>, b: nat) {
    forall v: nat | Marks(sums, e, b, v) :: Covered(sums, elements, b, v)
  }

  lemma AllSetIsOverlap(words: seq<nat>, sums: seq<Sum>, elements: set<seq<byte>>, e: seq<byte>, b: nat)
    requires Represents(words, sums, elements, b)
    ensures AllSet(words, sums, e, b) <==> Overlaps(sums, elements, e, b)
  {}

  /** Every position of the element is set, listed function by function. */
  predicate EachSet(words: seq<nat>, sums: seq<Sum>, e: seq<byte>, b: nat) {
    && (forall j | 0 <= j < |sums| :: Bit(words, Place(sums[j], e, b)))
    && (forall j | 0 <= j < |sums| :: Bit(words, Place(sums[j], [1] + e, b)))
  }

  lemma EachSetIsOverlap(words: seq<nat>, sums: seq<Sum>, elements: set<seq<byte>>, e: seq<byte>, b: nat)
    requires Represents(words, sums, elements, b)
    ensures EachSet(words, sums, e, b) <==> Overlaps(sums, elements, e, b)
    ensures e in elements ==> EachSet(words, sums, e, b)
  {}

  // ---------------------------------------------------------------- the objects

  class Hash64 {
    const sum: Sum
    var written: seq<byte>

    constructor (sum: Sum)
      ensures this.sum == sum && written == []
    {
      this.sum, written := sum, [];
    }

    method Reset()
      modifies this
      ensures written == []
    {
      written := [];
    }

    method Write(data: seq<byte>)
      modifies this
      ensures written == old(written) + data
    {
      written := written + data;
    }

    method Sum64() returns (r: uint64)
      ensures r == sum(written)
    {
      r := sum(written);
    }
  }

  class BloomFilter {
    const bitset: array<uint64>
    const hashFunctions: seq<Hash64>
    const m: nat
    const mInBits: nat
    var n: uint64
    ghost const sums: seq<Sum>
    /** Everything ever passed to `Set`. */
    ghost var elements: set<seq<byte>>

    ghost predicate Shape() {
      && Pow2(mInBits) <= m
      && bitset.Length == (m + 63) / 64
      && |hashFunctions| == |sums|
      && (forall i | 0 <= i < |sums| :: hashFunctions[i].sum == sums[i])
    }

    /** The set bits are exactly the positions of the elements, which are at least n. */
    ghost predicate Valid()
      reads this, bitset
    {
      && Shape()
      && Represents(bitset[..], sums, elements, mInBits)
      && n <= |elements|
    }

    constructor (m: nat, mInBits: nat, fnv: Sum, fnva: Sum, murmur: Sum)
      requires Pow2(mInBits) <= m
      ensures Valid() && fresh(bitset) && fresh(hashFunctions)
      ensures elements == {} && sums == [fnv, fnva, murmur] && this.mInBits == mInBits
    {
      this.m, this.mInBits := m, mInBits;
      n := 0;
      bitset := new uint64[(m + 63) / 64](_ => 0);
      var a := new Hash64(fnv);
      var b := new Hash64(fnva);
      var c := new Hash64(murmur);
      hashFunctions := [a, b, c];
      sums := [fnv, fnva, murmur];
      elements := {};
      new;
      forall v: nat
        ensures !Bit(bitset[..], v)
      {
        ZeroHasNoBits(v % 64);
      }
    }

    method Position(elem: seq<byte>, hf: Hash64) returns (bitsetIndex: nat, bitIndex: nat)
      requires Shape()
      modifies hf
      ensures bitsetIndex < bitset.Length && bitIndex < 64
      ensures 64 * bitsetIndex + bitIndex == Place(hf.sum, old(hf.written) + elem, mInBits)
    {
      hf.Write(elem);
      var hashSum := hf.Sum64();
      var mask := Mask(mInBits);
      var val := And(hashSum, mask);
      MaskIsRemainder(hashSum, mInBits);
      bitIndex := val % 64;
      bitsetIndex := val / 64;
    }

    method Mark(elem: seq<byte>, hf: Hash64)
      requires Shape()
      modifies hf, bitset
      ensures forall v: nat :: Bit(bitset[..], v) <==>
                (Bit(old(bitset[..]), v) || v == Place(hf.sum, old(hf.written) + elem, mInBits))
    {
      var bitsetIndex, bitIndex := Position(elem, hf);
      ghost var was: seq<nat> := bitset[..];
      WordSize();
      OrStaysBelow(bitset[bitsetIndex], bitIndex, 64);
      bitset[bitsetIndex] := Or(bitset[bitsetIndex], Pow2(bitIndex));
      ghost var p := 64 * bitsetIndex + bitIndex;
      assert p / 64 == bitsetIndex && p % 64 == bitIndex;
      assert bitset[..] == was[p / 64 := Or(was[p / 64], Pow2(p % 64))];
      forall v: nat
        ensures Bit(bitset[..], v) <==> (Bit(was, v) || v == p)
      {
        SetOneBit(was, p, v);
      }
    }

    method Test(elem: seq<byte>, hf: Hash64) returns (present: bool)
      requires Shape()
      modifies hf
      ensures present == Bit(bitset[..], Place(hf.sum, old(hf.written) + elem, mInBits))
    {
      var bitsetIndex, bitIndex := Position(elem, hf);
      assert (64 * bitsetIndex + bitIndex) / 64 == bitsetIndex && (64 * bitsetIndex + bitIndex) % 64 == bitIndex;
      present := And(bitset[bitsetIndex], Pow2(bitIndex)) != 0;
    }

    /** The two loops of `IsSet`. */
    method Scan(elem: seq<byte>) returns (r: bool)
      requires Shape()
      modifies hashFunctions
      ensures r == EachSet(bitset[..], sums, elem, mInBits)
    {
      for i := 0 to |hashFunctions|
        invariant forall j | 0 <= j < i :: Bit(bitset[..], Place(sums[j], elem, mInBits))
      {
        var hf := hashFunctions[i];
        hf.Reset();
        assert hf.written + elem == elem;
        var present := Test(elem, hf);
        if !present {
          return false;
        }
      }
      for i := 0 to |hashFunctions|
        invariant forall j | 0 <= j < i :: Bit(bitset[..], Place(sums[j], [1] + elem, mInBits))
      {
        var hf := hashFunctions[i];
        hf.Reset();
        hf.Write([1]);
        assert hf.written + elem == [1] + elem;
        var present := Test(elem, hf);
        if !present {
          return false;
        }
      }
      r := true;
    }

    /** True exactly when every position of the element is a position of some element set before; so
        there are no false negatives, and this is the whole extent of the false positives. */
    method IsSet(elem: seq<byte>) returns (r: bool)
      requires Valid()
      modifies hashFunctions
      ensures bitset[..] == old(bitset[..]) && elements == old(elements) && n == old(n)
      ensures r <==> Overlaps(sums, elements, elem, mInBits)
      ensures elem in elements ==> r
    {
      EachSetIsOverlap(bitset[..], sums, elements, elem, mInBits);
      r := Scan(elem);
    }

    /** The two loops of `Set`. */
    method MarkAll(elem: seq<byte>) returns (ghost between: seq<nat>)
      requires Shape()
      modifies bitset, hashFunctions
      ensures Added(between, old(bitset[..]), sums, |sums|, elem, mInBits)
      ensures Added(bitset[..], between, sums, |sums|, [1] + elem, mInBits)
    {
      ghost var was := bitset[..];
      for i := 0 to |hashFunctions|
        invariant Added(bitset[..], was, sums, i, elem, mInBits)
      {
        ghost var before := bitset[..];
        var hf := hashFunctions[i];
        hf.Reset();
        assert hf.written + elem == elem;
        Mark(elem, hf);
        AddedStep(bitset[..], before, was, sums, i, elem, mInBits);
      }
      between := bitset[..];
      for i := 0 to |hashFunctions|
        invariant Added(bitset[..], between, sums, i, [1] + elem, mInBits)
      {
        ghost var before := bitset[..];
        var hf := hashFunctions[i];
        hf.Reset();
        hf.Write([1]);
        assert hf.written + elem == [1] + elem;
        Mark(elem, hf);
        AddedStep(bitset[..], before, between, sums, i, [1] + elem, mInBits);
      }
    }

    /** Afterwards the set bits are the positions of one more element; n counts the calls that found
        their element not present. */
    method Set(elem: seq<byte>)
      requires Valid()
      modifies this, bitset, hashFunctions
      ensures Valid() && elements == old(elements) + {elem}
      ensures n as int ==
                if Overlaps(sums, old(elements), elem, mInBits) then old(n) as int else (old(n) + 1) % WORD64
    {
      hide Represents, Overlaps, AllSet, Added, Or, And;
      ghost var was := bitset[..];
      ghost var others := elements;
      SizeWith(others, elem);
      var isSet := IsSet(elem);
      elements := elements + {elem};
      if isSet {
        AllSetIsOverlap(was, sums, others, elem, mInBits);
        PresentAddsNothing(was, sums, others, elem, mInBits);
        return;
      }
      ghost var between := MarkAll(elem);
      BothGroupsAdded(bitset[..], between, was, sums, others, elem, mInBits);
      n := (n + 1) % WORD64;
    }
  }

  function SetOf(elems: seq<seq<byte>>): set<seq<byte>> {
    set e | e in elems
  }

  /** The answer to a query after any sequence of `Set` calls on a new filter. */
  method AnswerAfter(m: nat, b: nat, fnv: Sum, fnva: Sum, murmur: Sum, elems: seq<seq<byte>>, query: seq<byte>)
    returns (r: bool, n: uint64)
    requires Pow2(b) <= m
    ensures query in elems ==> r
    ensures r <==> Overlaps([fnv, fnva, murmur], SetOf(elems), query, b)
    ensures n <= |SetOf(elems)|
  {
    var bf := new BloomFilter(m, b, fnv, fnva, murmur);
    for i := 0 to |elems|
      invariant bf.Valid() && fresh(bf.bitset) && fresh(bf.hashFunctions)
      invariant bf.elements == SetOf(elems[..i])
    {
      bf.Set(elems[i]);
      assert SetOf(elems[..i + 1]) == SetOf(elems[..i]) + {elems[i]};
    }
    assert elems[..|elems|] == elems;
    n := bf.n;
    r := bf.IsSet(query);
  }
}
