/**
 The power-of-two test that guards the configured read size (helpers.go).
 The source uses the bit trick `n & (n - 1) == 0`; the model keeps the
 trick on 64-bit vectors and proves it equivalent to "n is 2^k for some
 k in 1..63".
 */
module Helpers {

  /** 2^k as a 64-bit word. */
  function Pow2(k: bv64): bv64
    requires k < 64
  {
    (1 as bv64) << k
  }

  /** helpers.go `isPowerOfTwo`: 0 and 1 are rejected first, then the bit trick decides. */
  function IsPowerOfTwo(n: bv64): (r: bool)
    ensures n == 0 || n == 1 ==> !r
    ensures r ==> n & 1 == 0
    ensures n >= 2 ==> (r <==> n & (n - 1) == 0)
  {
    if n == 0 || n == 1 then false else n & (n - 1) == 0
  }

  lemma Pow2Succ(k: bv64)
    requires k < 63
    ensures Pow2(k + 1) == Pow2(k) << 1
  {
  }

  lemma Pow2IsPowerOfTwo(k: bv64)
    requires 1 <= k < 64
    ensures IsPowerOfTwo(Pow2(k))
  {
  }

  /** A word that passes the bit test is 2^k for some k in 1..63. */
  lemma {:induction false} PowerOfTwoHasExponent(n: bv64) returns (k: bv64)
    requires IsPowerOfTwo(n)
    ensures 1 <= k < 64 && n == Pow2(k)
    decreases n as int
  {
    var half := n >> 1;
    assert n == half << 1;
    if half == 1 {
      k := 1;
    } else {
      assert half >= 2 && half & (half - 1) == 0;
      var j := PowerOfTwoHasExponent(half);
      assert half < 0x8000_0000_0000_0000;
      assert j < 63;
      Pow2Succ(j);
      k := j + 1;
    }
  }

  /** `isPowerOfTwo` accepts exactly 2^1 .. 2^63. */
  lemma IsPowerOfTwoExactly(n: bv64)
    ensures IsPowerOfTwo(n) <==> exists k: bv64 :: 1 <= k < 64 && n == Pow2(k)
  {
    if IsPowerOfTwo(n) {
      var k := PowerOfTwoHasExponent(n);
      assert 1 <= k < 64 && n == Pow2(k);
    }
    forall k: bv64 | 1 <= k < 64 && n == Pow2(k)
      ensures IsPowerOfTwo(n)
    {
      Pow2IsPowerOfTwo(k);
    }
  }
}
