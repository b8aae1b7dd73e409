/** Small facts about multiplication and division on which the block-index
    arithmetic rests. */
module Arith {

  lemma Distrib(a: int, b: int, c: int)
    ensures (a + b) * c == a * c + b * c
  {
  }

  lemma {:induction false} MulMonotone(a: int, b: int, c: nat)
    requires a <= b
    ensures a * c <= b * c
  {
    if c > 0 {
      MulMonotone(a, b, c - 1);
      Distrib(c - 1, 1, a);
      Distrib(c - 1, 1, b);
      assert a * c == a * (c - 1) + a;
      assert b * c == b * (c - 1) + b;
    }
  }

  /** k lies in the block k / size. */
  lemma DivBounds(k: int, size: int)
    requires size > 0
    ensures (k / size) * size <= k < (k / size) * size + size
    ensures k == (k / size) * size + k % size
  {
  }

  /** q and r with k == q * size + r and 0 <= r < size are k's quotient and
      remainder. */
  lemma DivUnique(k: int, q: int, r: int, size: int)
    requires size > 0 && 0 <= r < size && k == q * size + r
    ensures k / size == q && k % size == r
  {
    DivBounds(k, size);
    var d := k / size;
    if d < q {
      MulMonotone(d + 1, q, size);
      Distrib(d, 1, size);
    } else if d > q {
      MulMonotone(q + 1, d, size);
      Distrib(q, 1, size);
    }
  }
}
