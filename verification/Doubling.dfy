/** Buffers that double: the loops `while (size < need) size *= 2`, on unbounded numbers and on the 32
    bits of `size_t`. */
module Doubling {
  import opened Bytes

  function Pow2(e: nat): (p: nat)
    ensures p > 0
  {
    if e == 0 then 1 else 2 * Pow2(e - 1)
  }

  /** A power of two that `size_t` can hold. */
  predicate PowerOfTwo(c: nat) {
    exists e: nat :: e <= 31 && c == Pow2(e)
  }

  /** The size that doubling reaches. */
  function Grown(c: nat, need: nat): (r: nat)
    requires c > 0
    ensures r >= need && r >= c && (r == c || r < 2 * need)
    decreases need - c
  {
    if c >= need then c else Grown(2 * c, need)
  }

  /** `size *= 2` in 32 bits. */
  function Double32(c: u32): u32 {
    2 * c as int % 0x1_0000_0000
  }

  /** The variable of the loop after `k` rounds. */
  function After32(c: u32, k: nat): u32 {
    if k == 0 then c else Double32(After32(c, k - 1))
  }

  lemma {:induction false} Pow2Monotone(a: nat, b: nat)
    requires a <= b
    ensures Pow2(a) <= Pow2(b)
  {
    if a < b { Pow2Monotone(a, b - 1); }
  }

  lemma LargestPower()
    ensures Pow2(31) == 0x8000_0000
  {
    assert Pow2(4) == 0x10;
    assert Pow2(8) == 0x100;
    assert Pow2(12) == 0x1000;
    assert Pow2(16) == 0x1_0000;
    assert Pow2(20) == 0x10_0000;
    assert Pow2(24) == 0x100_0000;
    assert Pow2(28) == 0x1000_0000;
  }

  /** Doubling a power of two wraps to zero, and only at the top. */
  lemma DoublePower(c: nat)
    requires PowerOfTwo(c)
    ensures 0 < c <= 0x8000_0000
    ensures if c == 0x8000_0000 then Double32(c) == 0
            else Double32(c) == 2 * c <= 0x8000_0000 && PowerOfTwo(2 * c)
  {
    var e: nat :| e <= 31 && c == Pow2(e);
    LargestPower();
    Pow2Monotone(e, 31);
    if e < 31 {
      Pow2Monotone(e, 30);
      assert 2 * c == Pow2(e + 1);
    }
  }

  lemma {:induction false} ZeroStays(c: u32, k: nat, i: nat)
    requires After32(c, k) == 0 && i >= k
    ensures After32(c, i) == 0
    decreases i
  {
    if i > k { ZeroStays(c, k, i - 1); }
  }

  lemma {:induction false} After32Shift(c: u32, k: nat)
    ensures After32(c, k + 1) == After32(Double32(c), k)
  {
    if k > 0 { After32Shift(c, k - 1); }
  }

  /** The loop ends. */
  ghost predicate Ends(c: u32, need: nat) {
    exists k: nat :: After32(c, k) >= need
  }

  /** The loop ends with the size that unbounded numbers give. */
  ghost predicate EndsWell(c: u32, need: nat)
    requires c > 0
  {
    exists k: nat :: After32(c, k) == Grown(c, need) && Before(c, need, k)
  }

  /** The loop has not ended before `k` rounds. */
  ghost predicate Before(c: u32, need: nat, k: nat) {
    forall i: nat | i < k :: After32(c, i) < need
  }

  lemma EndsStep(c: u32, need: nat)
    requires c < need
    ensures Ends(c, need) <==> Ends(Double32(c), need)
  {
    hide Double32, After32;
    if Ends(c, need) {
      var k: nat :| After32(c, k) >= need;
      After32Zero(c);
      After32Shift(c, k - 1);
    }
    if Ends(Double32(c), need) {
      var k: nat :| After32(Double32(c), k) >= need;
      After32Shift(c, k);
    }
  }

  lemma After32Zero(c: u32)
    ensures After32(c, 0) == c
  {
  }

  lemma EndsWellStep(c: u32, need: nat)
    requires 0 < c < need && Double32(c) == 2 * c && EndsWell(2 * c, need)
    ensures EndsWell(c, need)
  {
    hide Double32, After32;
    var k: nat :| After32(2 * c, k) == Grown(2 * c, need) && Before(2 * c, need, k);
    After32Zero(c);
    After32Shift(c, k);
    forall i: nat | i < k + 1 ensures After32(c, i) < need {
      if i > 0 { After32Shift(c, i - 1); }
    }
    assert Before(c, need, k + 1);
  }

  lemma ZeroNeverEnds(need: nat)
    requires need > 0
    ensures !Ends(0, need)
  {
    forall k: nat ensures After32(0, k) == 0 {
      ZeroStays(0, 0, k);
    }
  }

  /** From a power of two the loop of the code ends in 32 bits exactly when two to the 31 is enough,
      and then with the size that unbounded numbers give. */
  lemma {:induction false} LoopEnds(c: u32, need: nat)
    requires PowerOfTwo(c)
    ensures Ends(c, need) <==> need <= 0x8000_0000
    ensures Ends(c, need) ==> EndsWell(c, need)
    decreases 0x1_0000_0000 - c
  {
    hide After32, PowerOfTwo, Double32, Ends, EndsWell;
    DoublePower(c);
    if c >= need {
      EndsAtOnce(c, need);
    } else {
      EndsStep(c, need);
      if c == 0x8000_0000 {
        ZeroNeverEnds(need);
      } else {
        LoopEnds(2 * c, need);
        if Ends(c, need) { EndsWellStep(c, need); }
      }
    }
  }

  lemma EndsAtOnce(c: u32, need: nat)
    requires c >= need && c > 0
    ensures Ends(c, need) && EndsWell(c, need)
  {
    assert After32(c, 0) == c;
    assert Before(c, need, 0);
  }

  lemma StartsAtPower()
    ensures PowerOfTwo(4096)
  {
    assert Pow2(4) == 0x10 && Pow2(8) == 0x100 && Pow2(12) == 4096;
  }

  /** The loop in 32 bits. The result zero says that it never ends. */
  method DoubleUntil(start: u32, need: nat) returns (size: u32)
    requires PowerOfTwo(start) && start > 0
    ensures if need <= 0x8000_0000 then size == Grown(start, need) && PowerOfTwo(size) else size == 0
    ensures size <= 0x8000_0000
  {
    size := start;
    while size < need
      invariant PowerOfTwo(size) && size > 0 && Grown(size, need) == Grown(start, need)
      decreases 0x1_0000_0000 - size
    {
      DoublePower(size);
      size := Double32(size);
      if size == 0 { return; }
    }
    DoublePower(size);
  }
}
