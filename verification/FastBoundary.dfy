/** When fast_smmu_map_sg (drivers/iommu/dma-mapping-fast.c) keeps scatterlists from crossing segment
    boundaries: exact conditions on the mapping. */
module FastBoundary {
  import opened Arith
  import opened FastIova
  import opened FastMapping
  import S = ScatterList
  import G = FastSg

  /** A list of one segment is one DMA segment, at its offset in the first page. */
  lemma {:induction false} OneSegment(lim: S.Limits, s: S.Segment, iova: nat)
    requires lim.boundary > 0
    ensures SegmentsFor(lim, [s], iova) == [S.Dma(iova + S.PageOffset(s), s.length)]
    ensures SpaceFor(lim.boundary, [s]) == S.PageSpan(s) / PAGE
  {
    assert S.PreparedList(lim.boundary, [s], 0) == [];
    assert Layout(lim.boundary, [s]) == [S.Align(s)];
    assert S.Start([S.Align(s)], 1) == S.PageSpan(s);
    var f := S.FinalRun(lim, [S.Align(s)], iova, 0);
    assert f == S.Final([], 0, iova);
  }

  /** The boundary promise, for the list as the allocator may place it. */
  lemma {:induction false} RunPromised(lim: S.Limits, o: seq<S.Segment>, p: seq<S.Segment>, iova: nat, n: nat)
    requires lim.boundary > 0 && S.Prepared(o, p) && n <= |p|
    ensures S.Promised(lim, o, p, iova, S.FinalRun(lim, p, iova, n))
    decreases n
  {
    if n > 0 {
      RunPromised(lim, o, p, iova, n - 1);
      G.RunFinalised(lim, o, p, iova, n - 1);
      S.FinalNextPromised(lim, o, p, iova, n - 1, S.FinalRun(lim, p, iova, n - 1));
    }
  }

  /** The allocator may put this list at page `bit` of a mapping with so many pages. */
  predicate MayGo(boundary: nat, pages: nat, o: seq<S.Segment>, bit: nat)
    requires boundary > 0
  {
    && G.AtPages(o) && S.NoneWider(boundary, o) && SpaceFor(boundary, o) > 0
    && bit % Alignment(SpaceFor(boundary, o)) == 0 && bit + SpaceFor(boundary, o) <= pages
  }

  /** Wherever a list without too wide segments is put, no DMA segment crosses a boundary. */
  ghost predicate KeepsBoundary(lim: S.Limits, base: nat, pages: nat)
    requires lim.boundary > 0
  {
    forall o, bit :: MayGo(lim.boundary, pages, o, bit) ==>
      S.AllInside(lim.boundary, SegmentsFor(lim, o, AddressOf(base, bit)))
  }

  lemma {:induction false} AvoidableInside(lim: S.Limits, o: seq<S.Segment>, iova: nat, k: nat)
    requires lim.boundary == Pow2(k) && S.Avoidable(lim.boundary, o, Layout(lim.boundary, o), iova)
    ensures S.AllInside(lim.boundary, SegmentsFor(lim, o, iova))
  {
    PowerIsGood(k);
    S.PreparedListKeeps(lim.boundary, o, |o|);
    assert o[..|o|] == o;
    RunPromised(lim, o, Layout(lim.boundary, o), iova, |o|);
  }

  /** From a base at a boundary. */
  lemma {:induction false} AlignedAvoids(lim: S.Limits, base: nat, pages: nat, o: seq<S.Segment>, bit: nat, k: nat)
    requires lim.boundary == Pow2(k) && base % Pow2(k) == 0 && MayGo(lim.boundary, pages, o, bit)
    ensures S.Avoidable(lim.boundary, o, Layout(lim.boundary, o), AddressOf(base, bit))
  {
    var n := SpaceFor(lim.boundary, o);
    var j := AlignmentIsPow2(n);
    if j <= k {
      PowMono(j, k);
      DividesTrans(base, j, k);
    } else {
      PowMono(k, j);
    }
    PowerIsGood(k);
    SpaceIsPages(lim.boundary, o);
    S.PreparedListKeeps(lim.boundary, o, |o|);
    PlacementAvoids(base, bit, n, k, o, Layout(lim.boundary, o), AddressOf(base, bit));
  }

  /** In a mapping between two boundaries. */
  lemma {:induction false} BetweenAvoids(lim: S.Limits, base: nat, pages: nat, o: seq<S.Segment>, bit: nat, k: nat)
    requires lim.boundary == Pow2(k) && base % Pow2(k) + pages * PAGE <= Pow2(k) && MayGo(lim.boundary, pages, o, bit)
    ensures S.Avoidable(lim.boundary, o, Layout(lim.boundary, o), AddressOf(base, bit))
  {
    var n := SpaceFor(lim.boundary, o);
    PowerIsGood(k);
    SpaceIsPages(lim.boundary, o);
    S.BeyondIsMod(base, lim.boundary);
    assert (bit + n) * PAGE == bit * PAGE + n * PAGE;
    MulMono(bit + n, pages, PAGE);
    S.BeyondAdd(base, bit * PAGE, lim.boundary);
  }

  lemma {:induction false} OddPart(r: nat) returns (g: nat, q: nat)
    requires r > 0
    ensures r == Pow2(g) * (2 * q + 1)
  {
    if r % 2 == 1 {
      g, q := 0, r / 2;
    } else {
      var i;
      i, q := OddPart(r / 2);
      g := i + 1;
      assert 2 * (Pow2(i) * (2 * q + 1)) == 2 * Pow2(i) * (2 * q + 1);
    }
  }

  lemma {:induction false} PowerAbove(g: nat, i: nat)
    requires i <= g + 1
    ensures PowerOfTwo(Pow2(g) + 1, Pow2(i)) == Pow2(g + 1)
    decreases g + 1 - i
  {
    if i <= g {
      PowMono(i, g);
      PowerAbove(g, i + 1);
    }
  }

  /** In pages: the place where 2^g + 1 pages reach one page beyond the boundary after the base. */
  lemma {:induction false} PlaceAcross(r: nat, j: nat) returns (g: nat, bit: nat)
    requires 0 < r < Pow2(j)
    ensures r + bit + Pow2(g) == Pow2(j) && bit % Pow2(g + 1) == 0 && Pow2(g) + 1 <= Pow2(j)
  {
    var q;
    g, q := OddPart(r);
    var a := Pow2(g);
    assert a <= r by {
      MulMono(1, 2 * q + 1, a);
    }
    if g >= j {
      PowMono(j, g);
    }
    PowMono(g + 1, j);
    bit := AcrossPages(r, a, q, Pow2(j));
  }

  lemma {:induction false} AcrossPages(r: nat, a: nat, q: nat, b: nat) returns (bit: nat)
    requires a > 0 && r == a * (2 * q + 1) && b % (2 * a) == 0 && r < b
    ensures r + bit + a == b && bit % (2 * a) == 0
  {
    var m := b / (2 * a);
    SplitMod(b, 2 * a);
    assert r == q * (2 * a) + a;
    assert m > q by {
      if m <= q {
        MulMono(m, q, 2 * a);
      }
    }
    MulMono(q + 1, m, 2 * a);
    bit := b - r - a;
    assert bit == (m - (q + 1)) * (2 * a);
    ModMultiple(m - (q + 1), 2 * a);
  }

  /** A mapping that does not start at a boundary and reaches beyond the next one. */
  lemma {:induction false} CrossingList(lim: S.Limits, base: nat, pages: nat, k: nat)
    returns (o: seq<S.Segment>, bit: nat)
    requires lim.boundary == Pow2(k) && base % PAGE == 0
    requires base % Pow2(k) != 0 && base % Pow2(k) + pages * PAGE > Pow2(k)
    ensures MayGo(lim.boundary, pages, o, bit)
    ensures !S.AllInside(lim.boundary, SegmentsFor(lim, o, AddressOf(base, bit)))
  {
    assert Pow2(12) == PAGE;
    if k <= 12 {
      DividesTrans(base, k, 12);
    }
    var r := PagesBefore(base, k);
    var g;
    g, bit := PlaceAcross(r, k - 12);
    var n := Pow2(g) + 1;
    o := [S.Segment(0, 0, n * PAGE, 0, 0)];
    PagesSpan(n);
    OneSegment(lim, o[0], AddressOf(base, bit));
    PowerAbove(g, 0);
    Pow2Add(k - 12);
    MulMono(n, Pow2(k - 12), PAGE);
    assert (r + bit + Pow2(g)) * PAGE == r * PAGE + bit * PAGE + Pow2(g) * PAGE == Pow2(k);
    S.BeyondIsMod(base, Pow2(k));
    S.BeyondAdd(base, bit * PAGE, Pow2(k));
    assert !S.Inside(lim.boundary, SegmentsFor(lim, o, AddressOf(base, bit))[0]);
  }

  lemma {:induction false} PagesSpan(n: nat)
    ensures S.PageSpan(S.Segment(0, 0, n * PAGE, 0, 0)) == n * PAGE
  {
    DivMod(n * PAGE + PAGE - 1, PAGE, n, PAGE - 1);
  }

  /** How many pages the base lies after a boundary. */
  lemma {:induction false} PagesBefore(base: nat, k: nat) returns (r: nat)
    requires base % PAGE == 0 && k >= 12
    ensures base % Pow2(k) == r * PAGE && r < Pow2(k - 12)
  {
    var b := Pow2(k - 12);
    Pow2Add(k - 12);
    S.RemainderInPages(base / PAGE, b, base, Pow2(k));
    r := base / PAGE % b;
  }

  /** For every list and every place that the allocator may give it, no DMA segment crosses a boundary,
      if and only if the mapping starts at a boundary or lies between two. */
  lemma {:induction false} BaseMustBeAligned(lim: S.Limits, base: nat, pages: nat, k: nat)
    requires lim.boundary == Pow2(k) && base % PAGE == 0
    ensures KeepsBoundary(lim, base, pages) <==> base % Pow2(k) == 0 || base % Pow2(k) + pages * PAGE <= Pow2(k)
  {
    if base % Pow2(k) == 0 || base % Pow2(k) + pages * PAGE <= Pow2(k) {
      forall o, bit | MayGo(lim.boundary, pages, o, bit)
        ensures S.AllInside(lim.boundary, SegmentsFor(lim, o, AddressOf(base, bit)))
      {
        if base % Pow2(k) == 0 {
          AlignedAvoids(lim, base, pages, o, bit, k);
        } else {
          BetweenAvoids(lim, base, pages, o, bit, k);
        }
        AvoidableInside(lim, o, AddressOf(base, bit), k);
      }
    } else {
      var o, bit := CrossingList(lim, base, pages, k);
    }
  }

  lemma {:induction false} SameRemainder(x: nat, s: nat, boundary: nat)
    requires s > 0 && boundary > 0 && boundary % s == 0
    ensures x % boundary % s == x % s
  {
    SplitMod(x, boundary);
    SplitMod(boundary, s);
    var q := x / boundary * (boundary / s);
    assert x / boundary * (boundary / s * s) == q * s;
    AddMultiple(x % boundary, s, q);
  }

  lemma {:induction false} RoomAtRemainder(x: nat, y: nat, a: nat, b: nat)
    requires a > 0 && b > 0 && b % a == 0 && x % a + y <= a
    ensures x % b + y <= b
  {
    var x0 := x - x % a;
    SplitMod(x, a);
    ModMultiple(x / a, a);
    RoomBefore(x0, a, b);
    SplitMod(x0, b);
    DivMod(x, b, x0 / b, x0 % b + x % a);
  }

  /** A piece that starts in the page at iova stays inside if it ends before the boundary. */
  lemma {:induction false} InsideFromPage(boundary: nat, iova: nat, off: nat, len: nat)
    requires boundary > 0 && iova % boundary + off < boundary
    ensures S.Inside(boundary, S.Dma(iova + off, len)) <==> iova % boundary + (off + len) <= boundary
  {
    S.BeyondIsMod(iova, boundary);
    S.BeyondAdd(iova, off, boundary);
  }

  /** Place t of those that are aligned to a bytes, in a mapping that starts q * a + rest bytes after a
      boundary: the last one before the next boundary is m - 1 - q. */
  lemma {:induction false} PlaceBefore(base: nat, a: nat, boundary: nat, t: nat)
    requires a > 0 && boundary > 0 && boundary % a == 0
    ensures base % boundary / a < boundary / a
    ensures t <= boundary / a - 1 - base % boundary / a ==>
              (base + t * a) % boundary == (base % boundary / a + t) * a + base % a
  {
    var r, m := base % boundary, boundary / a;
    var q := r / a;
    SplitMod(base, boundary);
    SplitMod(boundary, a);
    SplitMod(r, a);
    SameRemainder(base, a, boundary);
    assert q < m by {
      if m <= q {
        MulMono(m, q, a);
      }
    }
    if t <= m - 1 - q {
      MulMono(q + t, m - 1, a);
      assert (m - 1) * a == boundary - a && (q + t) * a == q * a + t * a;
      DivMod(base + t * a, boundary, base / boundary, (q + t) * a + base % a);
    }
  }

  lemma {:induction false} StaysAt(base: nat, a: nat, boundary: nat, x: nat, t: nat)
    requires a > 0 && boundary > 0 && boundary % a == 0 && x <= a && t < boundary / a - 1 - base % boundary / a
    ensures (base + t * a) % boundary + x <= boundary
  {
    var q, m := base % boundary / a, boundary / a;
    PlaceBefore(base, a, boundary, t);
    MulMono(q + t, m - 2, a);
    SplitMod(boundary, a);
    assert (m - 2) * a == boundary - 2 * a;
  }

  lemma {:induction false} CrossesAt(base: nat, a: nat, boundary: nat, x: nat, t: nat)
    requires a > 0 && boundary > 0 && boundary % a == 0 && base % a + x > a
    requires t == boundary / a - 1 - base % boundary / a
    ensures (base + t * a) % boundary + x > boundary
  {
    PlaceBefore(base, a, boundary, t);
    SplitMod(boundary, a);
    assert (boundary / a - 1) * a == boundary - a;
  }

  /** Where segment s may go, its DMA segment crosses no boundary. */
  ghost predicate SegmentStays(lim: S.Limits, base: nat, pages: nat, s: S.Segment)
    requires lim.boundary > 0
  {
    forall bit :: MayGo(lim.boundary, pages, [s], bit) ==>
      S.AllInside(lim.boundary, SegmentsFor(lim, [s], AddressOf(base, bit)))
  }

  lemma {:induction false} SegmentAt(lim: S.Limits, base: nat, bit: nat, s: S.Segment, x: nat)
    requires lim.boundary > 0 && lim.boundary % PAGE == 0 && base % PAGE == 0 && x == AddressOf(base, bit)
    ensures S.AllInside(lim.boundary, SegmentsFor(lim, [s], x)) <==>
            x % lim.boundary + (S.PageOffset(s) + s.length) <= lim.boundary
  {
    OneSegment(lim, s, x);
    RoomBefore(x, PAGE, lim.boundary);
    InsideFromPage(lim.boundary, x, S.PageOffset(s), s.length);
    assert SegmentsFor(lim, [s], x)[0] == S.Dma(x + S.PageOffset(s), s.length);
  }

  /** A segment of n pages, aligned to a pages as the allocator does, crosses no boundary wherever it is
      put, if and only if it fits between the base's remainder and the next multiple of its alignment,
      or the one place in which it does not is beyond the mapping. */
  lemma {:induction false} OneSegmentStays(lim: S.Limits, base: nat, pages: nat, s: S.Segment, n: nat, k: nat)
    requires lim.boundary == Pow2(k) && base % PAGE == 0 && s.phys % PAGE == 0
    requires n > 0 && S.PageSpan(s) == n * PAGE <= lim.boundary
    ensures var a := Alignment(n);
            SegmentStays(lim, base, pages, s) <==>
            || base % (a * PAGE) + S.PageOffset(s) + s.length <= a * PAGE
            || pages < (lim.boundary / (a * PAGE) - 1 - base % lim.boundary / (a * PAGE)) * a + n
  {
    var a, x := Alignment(n), S.PageOffset(s) + s.length;
    AlignmentDivides(n, k);
    if base % (a * PAGE) + x <= a * PAGE {
      forall bit | MayGo(lim.boundary, pages, [s], bit)
        ensures S.AllInside(lim.boundary, SegmentsFor(lim, [s], AddressOf(base, bit)))
      {
        StaysAnywhere(lim, base, bit, s, n, pages);
      }
    } else if pages < (lim.boundary / (a * PAGE) - 1 - base % lim.boundary / (a * PAGE)) * a + n {
      forall bit | MayGo(lim.boundary, pages, [s], bit)
        ensures S.AllInside(lim.boundary, SegmentsFor(lim, [s], AddressOf(base, bit)))
      {
        StaysBefore(lim, base, bit, s, n, pages);
      }
    } else {
      var bit := CrossesLast(lim, base, s, n, pages);
    }
  }

  /** The alignment is no more than a boundary that the pages fit into. */
  lemma {:induction false} AlignmentDivides(n: nat, k: nat)
    requires n > 0 && n * PAGE <= Pow2(k)
    ensures Alignment(n) * PAGE <= Pow2(k) && Pow2(k) % (Alignment(n) * PAGE) == 0 && Pow2(k) % PAGE == 0
  {
    assert Pow2(12) == PAGE;
    assert k >= 12 by {
      if k < 12 {
        PowMono(k, 11);
      }
    }
    PowMono(12, k);
    Pow2Add(k - 12);
    var i := LeastPower(n, 0, k - 12);
    Pow2Add(i);
    PowMono(i + 12, k);
  }

  lemma {:induction false} LeastPower(n: nat, i: nat, j: nat) returns (l: nat)
    requires n <= Pow2(j) && i <= j
    ensures PowerOfTwo(n, Pow2(i)) == Pow2(l) && l <= j
    decreases j - i
  {
    if Pow2(i) >= n {
      l := i;
    } else {
      l := LeastPower(n, i + 1, j);
    }
  }

  lemma {:induction false} StaysAnywhere(lim: S.Limits, base: nat, bit: nat, s: S.Segment, n: nat, pages: nat)
    requires lim.boundary > 0 && base % PAGE == 0 && S.PageSpan(s) == n * PAGE
    requires lim.boundary % PAGE == 0 && lim.boundary % (Alignment(n) * PAGE) == 0
    requires base % (Alignment(n) * PAGE) + S.PageOffset(s) + s.length <= Alignment(n) * PAGE
    requires MayGo(lim.boundary, pages, [s], bit)
    ensures S.AllInside(lim.boundary, SegmentsFor(lim, [s], AddressOf(base, bit)))
  {
    var a, x := Alignment(n), AddressOf(base, bit);
    OneSegment(lim, s, x);
    SplitMod(bit, a);
    assert bit * PAGE == bit / a * (a * PAGE);
    AddMultiple(base, a * PAGE, bit / a);
    RoomAtRemainder(x, S.PageOffset(s) + s.length, a * PAGE, lim.boundary);
    SegmentAt(lim, base, bit, s, x);
  }

  lemma {:induction false} StaysBefore(lim: S.Limits, base: nat, bit: nat, s: S.Segment, n: nat, pages: nat)
    requires lim.boundary > 0 && base % PAGE == 0 && S.PageSpan(s) == n * PAGE
    requires lim.boundary % PAGE == 0 && lim.boundary % (Alignment(n) * PAGE) == 0
    requires MayGo(lim.boundary, pages, [s], bit)
    requires var a := Alignment(n);
             pages < (lim.boundary / (a * PAGE) - 1 - base % lim.boundary / (a * PAGE)) * a + n
    ensures S.AllInside(lim.boundary, SegmentsFor(lim, [s], AddressOf(base, bit)))
  {
    var a, x := Alignment(n), AddressOf(base, bit);
    OneSegment(lim, s, x);
    SplitMod(bit, a);
    var t, last := bit / a, lim.boundary / (a * PAGE) - 1 - base % lim.boundary / (a * PAGE);
    assert t < last by {
      if t >= last {
        MulMono(last, t, a);
      }
    }
    assert bit * PAGE == t * (a * PAGE);
    S.RoundUpCovers(s.length + S.PageOffset(s));
    MulMono(n, a, PAGE);
    StaysAt(base, a * PAGE, lim.boundary, S.PageOffset(s) + s.length, t);
    SegmentAt(lim, base, bit, s, x);
  }

  lemma {:induction false} CrossesLast(lim: S.Limits, base: nat, s: S.Segment, n: nat, pages: nat) returns (bit: nat)
    requires lim.boundary > 0 && base % PAGE == 0 && n > 0 && S.PageSpan(s) == n * PAGE <= lim.boundary
    requires s.phys % PAGE == 0
    requires lim.boundary % PAGE == 0 && lim.boundary % (Alignment(n) * PAGE) == 0
    requires base % (Alignment(n) * PAGE) + S.PageOffset(s) + s.length > Alignment(n) * PAGE
    requires var a := Alignment(n);
             pages >= (lim.boundary / (a * PAGE) - 1 - base % lim.boundary / (a * PAGE)) * a + n
    ensures MayGo(lim.boundary, pages, [s], bit)
    ensures !S.AllInside(lim.boundary, SegmentsFor(lim, [s], AddressOf(base, bit)))
  {
    var a := Alignment(n);
    PlaceBefore(base, a * PAGE, lim.boundary, 0);
    var t := lim.boundary / (a * PAGE) - 1 - base % lim.boundary / (a * PAGE);
    bit := t * a;
    ModMultiple(t, a);
    OneSegment(lim, s, AddressOf(base, bit));
    assert bit * PAGE == t * (a * PAGE);
    CrossesAt(base, a * PAGE, lim.boundary, S.PageOffset(s) + s.length, t);
    SegmentAt(lim, base, bit, s, AddressOf(base, bit));
  }

  /** For instance: two pages at the start of a mapping that starts one page before a boundary. */
  lemma {:induction false} TwoPagesCross(maxLen: nat, phys: nat)
    requires phys % PAGE == 0
    ensures var lim, o := S.Limits(maxLen, 2 * PAGE), [S.Segment(phys, 0, 2 * PAGE, 0, 0)];
            && MayGo(lim.boundary, 2, o, 0)
            && SegmentsFor(lim, o, AddressOf(PAGE, 0)) == [S.Dma(PAGE, 2 * PAGE)]
            && !S.AllInside(lim.boundary, SegmentsFor(lim, o, AddressOf(PAGE, 0)))
  {
    var lim, o := S.Limits(maxLen, 2 * PAGE), [S.Segment(phys, 0, 2 * PAGE, 0, 0)];
    OneSegment(lim, o[0], AddressOf(PAGE, 0));
    assert !S.Inside(lim.boundary, SegmentsFor(lim, o, AddressOf(PAGE, 0))[0]);
  }
}
