/** Circular index arithmetic and 32-bit words (integer.h). */
module Integers {

  const WORD_LIMIT := 0x1_0000_0000

  /** An unsigned 32-bit machine word. */
  type Word32 = x: int | 0 <= x < WORD_LIMIT

  function Min(x: int, y: int): int {
    if x < y then x else y
  }

  function Max(x: int, y: int): int {
    if x > y then x else y
  }

  function Abs(x: int): int {
    if x < 0 then -x else x
  }

  /** The signed distance from y to x along the shorter way round a circle. */
  function ModuloSubtract(x: int, y: int, mod: int): (d: int)
    requires 0 <= x < mod && 0 <= y < mod
    ensures d == x - y || d == x - y - mod || d == x - y + mod
    ensures 2 * Abs(d) <= mod
  {
    var d1 := x - y;
    var d2 := (if x > y then -mod else mod) + d1;
    if Abs(d1) > Abs(d2) then d2 else d1
  }

  function ModuloAdd(x: int, y: int, mod: int): (s: int)
    requires 0 <= x < mod && -mod <= y <= mod
    ensures 0 <= s < mod
    ensures s == x + y || s == x + y - mod || s == x + y + mod
  {
    var sum := x + y;
    var down := if sum >= mod then sum - mod else sum;
    if down < 0 then down + mod else down
  }

  lemma Wraps(x: int)
    ensures 0 <= x < WORD_LIMIT ==> x % WORD_LIMIT == x
    ensures WORD_LIMIT <= x < 2 * WORD_LIMIT ==> x % WORD_LIMIT == x - WORD_LIMIT
    ensures -WORD_LIMIT <= x < 0 ==> x % WORD_LIMIT == x + WORD_LIMIT
  {
  }

  lemma MulMonotone(k: nat, x: int, y: int)
    requires x <= y
    ensures k * x <= k * y
  {
    assert k * y - k * x == k * (y - x);
  }

  lemma Ordered(a: nat, b: nat, size: nat)
    ensures a <= b ==> a * size <= b * size
    ensures a < b ==> a * size + size <= b * size
  {
    if a < b {
      MulMonotone(size, a + 1, b);
      assert size * (a + 1) == a * size + size;
    }
  }
}
