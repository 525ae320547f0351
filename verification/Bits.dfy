/** Masking with a power of two minus one, and adjust_power_of_2 (misc.c). */
module Bits {
  import opened Integers
  import opened Wrappers

  /** The & operator on unsigned numbers, bit by bit. */
  function And(x: nat, y: nat): nat {
    if x == 0 || y == 0 then 0 else 2 * And(x / 2, y / 2) + (if x % 2 == 1 && y % 2 == 1 then 1 else 0)
  }

  function Pow2(k: nat): (p: nat)
    ensures p >= 1
  {
    if k == 0 then 1 else 2 * Pow2(k - 1)
  }

  ghost predicate PowerOfTwo(n: nat) {
    exists k: nat :: Pow2(k) == n
  }

  /** What is left of x after taking away n as often as possible. */
  function Remainder(x: nat, n: nat): (r: nat)
    requires n > 0
    ensures r < n
  {
    if x < n then x else Remainder(x - n, n)
  }

  lemma {:induction false} RemainderOfDouble(x: nat, m: nat)
    requires m > 0
    ensures Remainder(x, 2 * m) == 2 * Remainder(x / 2, m) + x % 2
    decreases x
  {
    if x >= 2 * m {
      RemainderOfDouble(x - 2 * m, m);
      assert (x - 2 * m) / 2 == x / 2 - m;
    }
  }

  lemma {:induction false} MaskIsRemainder(x: nat, k: nat)
    ensures And(x, Pow2(k) - 1) == Remainder(x, Pow2(k))
  {
    if k == 0 {
      RemainderOfOne(x);
    } else {
      MaskIsRemainder(x / 2, k - 1);
      RemainderOfDouble(x, Pow2(k - 1));
      assert (Pow2(k) - 1) / 2 == Pow2(k - 1) - 1;
    }
  }

  lemma {:induction false} RemainderOfOne(x: nat)
    ensures Remainder(x, 1) == 0
  {
    if x >= 1 {
      RemainderOfOne(x - 1);
    }
  }

  /** x & (n - 1) is the remainder of x by n when n is a power of two. */
  lemma Masked(x: nat, n: nat)
    requires PowerOfTwo(n)
    ensures n > 0 && And(x, n - 1) == Remainder(x, n)
  {
    var k: nat :| Pow2(k) == n;
    MaskIsRemainder(x, k);
  }

  lemma Doubled(a: nat, b: nat)
    ensures 2 * (a * b) == 2 * a * b
  {
  }

  lemma {:induction false} Pow2Adds(j: nat, k: nat)
    ensures Pow2(j + k) == Pow2(j) * Pow2(k)
  {
    if j > 0 {
      Pow2Adds(j - 1, k);
      Doubled(Pow2(j - 1), Pow2(k));
    }
  }

  lemma Pow2OfWord()
    ensures Pow2(31) == 0x8000_0000 && Pow2(32) == WORD_LIMIT
  {
    assert Pow2(8) == 256;
    Pow2Adds(8, 8);
    Pow2Adds(16, 16);
  }

  lemma {:induction false} Pow2Monotone(j: nat, k: nat)
    requires j <= k
    ensures Pow2(j) <= Pow2(k)
  {
    if j < k {
      Pow2Monotone(j, k - 1);
    }
  }

  /** adjust_power_of_2: the least power of two that is not below u; None stands for the failed assertion. */
  method AdjustPowerOf2(u: Word32) returns (r: Option<nat>)
    ensures r == None <==> u > 0x8000_0000
    ensures r.Some? ==> PowerOfTwo(r.value) && u <= r.value && (r.value == 1 || r.value < 2 * u)
  {
    Pow2OfWord();
    var ret := 1;
    ghost var k := 0;
    assert Pow2(k) == ret;
    while ret < u
      invariant k <= 31 && ret == Pow2(k) && (ret == 1 || ret < 2 * u)
      decreases WORD_LIMIT - ret
    {
      if k < 31 {
        Pow2Monotone(k + 1, 31);
      }
      k := k + 1;
      ret := 2 * ret % WORD_LIMIT;
      if ret == 0 {
        return None;
      }
    }
    Pow2Monotone(k, 31);
    return Some(ret);
  }
}
