/** Fixed-width unsigned words and the one option type the other modules share. */
module Words {
  const WORD32 := 0x1_0000_0000
  const WORD64 := 0x1_0000_0000_0000_0000

  type uint32 = n: int | 0 <= n < WORD32
  type uint64 = n: int | 0 <= n < WORD64

  datatype Option<+T> = None | Some(value: T)

  /** `v + 1` in 32-bit unsigned arithmetic. */
  function Succ32(v: uint32): uint32 {
    (v + 1) % WORD32
  }

  /** `v - 1` in 32-bit unsigned arithmetic. */
  function Pred32(v: uint32): uint32 {
    (v + WORD32 - 1) % WORD32
  }

  lemma SubsetSize<T>(x: set<T>, y: set<T>)
    requires x <= y
    ensures |x| <= |y|
    ensures x < y ==> |x| < |y|
  {
    assert y == x + (y - x);
    assert |y| == |x| + |y - x|;
    if x < y {
      var e :| e in y && e !in x;
      assert e in y - x;
    }
  }
}
