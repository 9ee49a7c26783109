/** arm_lpae_pgsize in drivers/iommu/qcom-io-pgtable-arm.c: the largest supported page size for an
    address and a length, found with bit scans. */
module LpaePgsize {
  import opened Arith

  /** Bitwise or. */
  function Or(a: nat, b: nat): (r: nat)
    ensures r == 0 <==> a == 0 && b == 0
    decreases a + b
  {
    if a == 0 && b == 0 then 0
    else 2 * Or(a / 2, b / 2) + if a % 2 == 1 || b % 2 == 1 then 1 else 0
  }

  /** __fls: the number of the highest bit that is set. */
  method Fls(x: nat) returns (j: nat)
    requires x > 0
    ensures Pow2(j) <= x < Pow2(j + 1)
  {
    j := 0;
    while Pow2(j + 1) <= x
      invariant Pow2(j) <= x
      decreases x - Pow2(j)
    {
      j := j + 1;
    }
  }

  /** __ffs: the number of the lowest bit that is set. */
  method Ffs(x: nat) returns (j: nat)
    requires x > 0
    ensures x % Pow2(j) == 0 && x % Pow2(j + 1) != 0
  {
    j := 0;
    var y := x;
    while y % 2 == 0
      invariant y > 0 && x == y * Pow2(j)
      decreases y
    {
      HalfStep(x, y, j);
      y := y / 2;
      j := j + 1;
    }
    OddPart(x, y, j);
  }

  lemma {:induction false} HalfStep(x: nat, y: nat, j: nat)
    requires y > 0 && y % 2 == 0 && x == y * Pow2(j)
    ensures 0 < y / 2 < y && x == y / 2 * Pow2(j + 1)
  {
    assert y == y / 2 * 2;
    assert y / 2 * 2 * Pow2(j) == y / 2 * (2 * Pow2(j));
  }

  lemma {:induction false} OddPart(x: nat, y: nat, j: nat)
    requires y % 2 == 1 && x == y * Pow2(j)
    ensures x % Pow2(j) == 0 && x % Pow2(j + 1) != 0
  {
    ModMultiple(y, Pow2(j));
    var k, p := y / 2, Pow2(j);
    assert y == 2 * k + 1;
    assert (2 * k + 1) * p == k * (2 * p) + p;
    DivMod(x, Pow2(j + 1), k, p);
  }

  lemma {:induction false} HalfDivides(x: nat, j: nat)
    requires j > 0
    ensures x % Pow2(j) == 0 <==> x % 2 == 0 && x / 2 % Pow2(j - 1) == 0
  {
    var p := Pow2(j - 1);
    if x % Pow2(j) == 0 {
      SplitMod(x, Pow2(j));
      var q := x / Pow2(j);
      assert q * (2 * p) == 2 * (q * p);
      DivMod(x / 2, p, q, 0);
    }
    if x % 2 == 0 && x / 2 % p == 0 {
      SplitMod(x / 2, p);
      var q := x / 2 / p;
      assert 2 * (q * p) == q * (2 * p);
      DivMod(x, Pow2(j), q, 0);
    }
  }

  /** The or of two numbers is a multiple of a power of two exactly if both are. */
  lemma {:induction false} OrDivides(a: nat, b: nat, j: nat)
    ensures Or(a, b) % Pow2(j) == 0 <==> a % Pow2(j) == 0 && b % Pow2(j) == 0
    decreases j
  {
    if j == 0 {
      DivMod(Or(a, b), 1, Or(a, b), 0);
      DivMod(a, 1, a, 0);
      DivMod(b, 1, b, 0);
    } else {
      OrDivides(a / 2, b / 2, j - 1);
      HalfDivides(a, j);
      HalfDivides(b, j);
      HalfDivides(Or(a, b), j);
      OrHalf(a, b);
    }
  }

  lemma {:induction false} OrHalf(a: nat, b: nat)
    ensures Or(a, b) / 2 == Or(a / 2, b / 2)
    ensures Or(a, b) % 2 == 0 <==> a % 2 == 0 && b % 2 == 0
  {
  }

  /** A page of 2^j bytes can be used: it is not longer than the request, and the addresses are
      aligned to it. */
  predicate Usable(iova: nat, paddr: nat, size: nat, j: nat) {
    Pow2(j) <= size && iova % Pow2(j) == 0 && paddr % Pow2(j) == 0
  }

  lemma {:induction false} FlsBounds(size: nat, top: nat, j: nat)
    requires Pow2(top) <= size < Pow2(top + 1)
    ensures j <= top <==> Pow2(j) <= size
  {
    if j <= top {
      PowMono(j, top);
    } else {
      PowMono(top + 1, j);
    }
  }

  lemma {:induction false} FfsBounds(x: nat, low: nat, j: nat)
    requires x % Pow2(low) == 0 && x % Pow2(low + 1) != 0
    ensures j <= low <==> x % Pow2(j) == 0
  {
    if j <= low {
      DividesTrans(x, j, low);
    } else if x % Pow2(j) == 0 {
      DividesTrans(x, low + 1, j);
    }
  }

  /** arm_lpae_pgsize: bitmap[j] says whether pages of 2^j are supported; some supported size must
      be usable, or the driver stops with BUG_ON. */
  method PgSize(bitmap: seq<bool>, iova: nat, paddr: nat, size: nat) returns (j: nat)
    requires size > 0 && exists k :: 0 <= k < |bitmap| && bitmap[k] && Usable(iova, paddr, size, k)
    ensures j < |bitmap| && bitmap[j] && Usable(iova, paddr, size, j)
    ensures forall k :: j < k < |bitmap| && bitmap[k] ==> !Usable(iova, paddr, size, k)
  {
    var idx := Limit(iova, paddr, size);
    j := if idx < |bitmap| then idx + 1 else |bitmap|;
    while j > 0 && !bitmap[j - 1]
      invariant j <= |bitmap| && j <= idx + 1
      invariant forall k :: j <= k < |bitmap| && bitmap[k] ==> k > idx
    {
      j := j - 1;
    }
    j := j - 1;
  }

  /** The highest bit that the length and the addresses allow. */
  method Limit(iova: nat, paddr: nat, size: nat) returns (idx: nat)
    requires size > 0
    ensures forall k: nat :: k <= idx <==> Usable(iova, paddr, size, k)
  {
    var top := Fls(size);
    var merge := Or(iova, paddr);
    idx := top;
    var low := top;
    if merge != 0 {
      low := Ffs(merge);
      idx := if low < top then low else top;
    }
    forall k: nat
      ensures k <= idx <==> Usable(iova, paddr, size, k)
    {
      FlsBounds(size, top, k);
      OrDivides(iova, paddr, k);
      if merge != 0 {
        FfsBounds(merge, low, k);
      } else {
        DivMod(0, Pow2(k), 0, 0);
      }
    }
  }
}
