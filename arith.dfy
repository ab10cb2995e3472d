/**
 * The integer widths of the source, the smaller and larger of two counts,
 * and facts about division and remainder on natural numbers, used by the
 * buffer, token and block arithmetic.
 */
module Arith {
  type u16 = x: int | 0 <= x < 0x1_0000
  type u32 = x: int | 0 <= x < 0x1_0000_0000
  type u64 = x: int | 0 <= x < 0x1_0000_0000_0000_0000

  function Min(a: nat, b: nat): nat
  {
    if a <= b then a else b
  }

  function Max(a: nat, b: nat): nat
  {
    if a <= b then b else a
  }

  lemma MulMonotone(a: nat, b: nat, d: nat)
    requires a <= b
    ensures a * d <= b * d
  {
  }

  /** The quotient of `n` by `d` is the `q` with `q * d <= n < (q + 1) * d`. */
  lemma DivBetween(n: nat, d: nat, q: nat)
    requires d > 0 && q * d <= n < (q + 1) * d
    ensures n / d == q
  {
    var r := n / d;
    assert r * d <= n < (r + 1) * d;
    if r < q {
      MulMonotone(r + 1, q, d);
    } else if r > q {
      MulMonotone(q + 1, r, d);
    }
  }

  /**
   * Rounding a quotient up: one more than `n / d` when `d` leaves a
   * remainder, and `(n + d - 1) / d` either way, which is 0 only for 0.
   */
  lemma CeilOfQuotient(n: nat, d: nat)
    requires d > 0
    ensures (n + d - 1) / d == if n % d != 0 then n / d + 1 else n / d
    ensures (n + d - 1) / d == 0 <==> n == 0
  {
    var q, m := n / d, n % d;
    assert n == q * d + m;
    if m != 0 {
      assert (q + 1) * d <= n + d - 1 < (q + 2) * d;
      DivBetween(n + d - 1, d, q + 1);
    } else {
      assert q * d <= n + d - 1 < (q + 1) * d;
      DivBetween(n + d - 1, d, q);
      if n > 0 {
        assert q > 0;
      }
    }
  }

  /** The quotient of `n` by `d`, times `d`, is at most `n` and more than `n - d`. */
  lemma QuotientBounds(n: nat, d: nat)
    requires d > 0
    ensures 0 <= n / d && (n / d) * d <= n < (n / d + 1) * d
  {
    assert n == (n / d) * d + n % d;
  }

  /** `n == q * d + r` with `r < d` makes `q` and `r` the quotient and remainder. */
  lemma DivMod(n: nat, d: nat, q: nat, r: nat)
    requires d > 0 && r < d && n == q * d + r
    ensures n / d == q && n % d == r
  {
    DivBetween(n, d, q);
  }
}
