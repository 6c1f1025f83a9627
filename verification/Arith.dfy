/** Non-linear facts about products, quotients and powers. */
module Arith {

  /** A product of naturals, as a natural. */
  function Times(a: nat, b: nat): nat { a * b }

  lemma MulMono(a: nat, b: nat, c: nat)
    requires a <= b
    ensures a * c <= b * c
  {
    if a < b {
      Distribute(b - a, a, c);
    }
  }

  lemma Distribute(a: int, b: int, c: int)
    ensures (a + b) * c == a * c + b * c
  {
  }

  /** Slot `s` of `m` slots of width `w` ends inside `m * w`. */
  lemma SlotInRange(s: nat, m: nat, w: nat)
    requires s < m
    ensures s * w + w == (s + 1) * w <= m * w
  {
    Distribute(s, 1, w);
    MulMono(s + 1, m, w);
  }

  /** Slots below `s` end before slot `s` begins. */
  lemma SlotBefore(t: nat, s: nat, w: nat)
    requires t < s
    ensures t * w + w <= s * w
  {
    SlotInRange(t, s, w);
  }

  lemma QuotientOfProduct(n: nat, w: nat)
    requires w > 0
    ensures n * w / w == n
  {
    var x := n * w;
    var q := x / w;
    DivMod(x, w);
    if q < n {
      MulMono(q + 1, n, w);
      Distribute(q, 1, w);
      assert false;
    }
    if q > n {
      MulMono(n + 1, q, w);
      Distribute(n, 1, w);
      assert false;
    }
  }

  lemma DivMod(x: nat, w: nat)
    requires w > 0
    ensures x / w * w <= x < x / w * w + w
  {
    assert x == x / w * w + x % w;
  }

  function Pow2(n: nat): (p: nat)
    ensures p > 0
  {
    if n == 0 then 1 else 2 * Pow2(n - 1)
  }

  function Min(a: nat, b: nat): nat { if a < b then a else b }

  // Reals.

  /** Rounding half away from zero, for the non-negative values it is used on. */
  function Round(x: real): int { (x + 0.5).Floor }

  lemma DivideOut(x: real, d: real)
    requires d > 0.0
    ensures (x * d) / d == x
  {
  }

  lemma ProductNonNegative(x: real, y: real)
    requires x >= 0.0 && y >= 0.0
    ensures x * y >= 0.0
  {
  }
}
