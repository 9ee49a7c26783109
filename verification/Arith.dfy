/** Facts about multiplication and division by an unknown divisor. */
module Arith {

  lemma MulGap(a: int, b: int, d: nat)
    requires a < b
    ensures a * d + d <= b * d
  {
    assert b * d == a * d + (b - a) * d;
    assert (b - a) * d == (b - a - 1) * d + d;
    assert (b - a - 1) * d >= 0;
  }

  lemma MulMono(a: int, b: int, d: nat)
    requires a <= b
    ensures a * d <= b * d
  {
    if a < b {
      MulGap(a, b, d);
    }
  }

  /** Quotient and remainder are determined by x == q * d + r. */
  lemma DivMod(x: int, d: nat, q: int, r: int)
    requires d > 0 && x == q * d + r && 0 <= r < d
    ensures x / d == q && x % d == r
  {
    var q', r' := x / d, x % d;
    assert x == d * q' + r';
    assert d * q' == q' * d;
    if q' < q {
      MulGap(q', q, d);
    } else if q < q' {
      MulGap(q, q', d);
    }
  }

  lemma DivBound(x: nat, d: nat, k: nat)
    requires d > 0 && x < k * d
    ensures x / d < k
  {
    var q := x / d;
    assert x == d * q + x % d;
    assert d * q == q * d;
    if k <= q {
      MulMono(k, q, d);
    }
  }

  lemma DivLower(x: nat, d: nat, k: nat)
    requires d > 0 && k * d <= x
    ensures k <= x / d
  {
    var q := x / d;
    assert x == d * q + x % d;
    assert d * q == q * d;
    if q < k {
      MulGap(q, k, d);
    }
  }

  lemma ModMultiple(q: int, d: nat)
    requires d > 0
    ensures (q * d) % d == 0 && (q * d) / d == q
  {
    DivMod(q * d, d, q, 0);
  }

  /** Adding a multiple of the divisor moves the quotient and keeps the remainder. */
  lemma AddMultiple(x: int, d: nat, k: int)
    requires d > 0
    ensures (x + k * d) / d == x / d + k && (x + k * d) % d == x % d
  {
    var q, r := x / d, x % d;
    assert x == d * q + r;
    assert d * q == q * d;
    assert (q + k) * d == q * d + k * d;
    DivMod(x + k * d, d, q + k, r);
  }

  lemma SplitMod(x: nat, d: nat)
    requires d > 0
    ensures x == x / d * d + x % d && x % d < d
  {
    assert x == d * (x / d) + x % d;
    assert d * (x / d) == x / d * d;
  }

  function Pow2(j: nat): (r: nat)
    ensures r > 0
  {
    if j == 0 then 1 else 2 * Pow2(j - 1)
  }

  /** Powers of two grow, and each divides the later ones. */
  lemma {:induction false} PowMono(i: nat, j: nat)
    requires i <= j
    ensures Pow2(i) <= Pow2(j) && Pow2(j) % Pow2(i) == 0
    decreases j
  {
    if i < j {
      PowMono(i, j - 1);
      SplitMod(Pow2(j - 1), Pow2(i));
      var q := Pow2(j - 1) / Pow2(i);
      assert 2 * (q * Pow2(i)) == 2 * q * Pow2(i);
      ModMultiple(2 * q, Pow2(i));
    } else {
      DivMod(Pow2(i), Pow2(i), 1, 0);
    }
  }

  lemma {:induction false} DividesTrans(x: nat, i: nat, j: nat)
    requires i <= j && x % Pow2(j) == 0
    ensures x % Pow2(i) == 0
  {
    PowMono(i, j);
    SplitMod(x, Pow2(j));
    SplitMod(Pow2(j), Pow2(i));
    var q, d := x / Pow2(j), Pow2(j) / Pow2(i);
    assert q * (d * Pow2(i)) == q * d * Pow2(i);
    ModMultiple(q * d, Pow2(i));
  }
}
