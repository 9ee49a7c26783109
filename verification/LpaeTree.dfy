/** The translation tables of drivers/iommu/qcom-io-pgtable-arm.c: tables in memory linked by
    descriptors, and the walk over them.  Addresses are counted in granules: the bits below the
    granule pass through a translation unchanged. */
module LpaeTree {
  import opened Arith

  /** The last level (ARM_LPAE_MAX_LEVELS - 1). */
  const LAST := 3
  /** The child count has thirteen bits. */
  const COUNTS := 8192

  /** Entries in a table and in the pgd, the level where the walk starts, the pgd's address. */
  datatype Config = Config(e: nat, r: nat, s: nat, root: nat)

  predicate Good(c: Config) {
    2 <= c.e <= COUNTS && 0 < c.r <= c.e && c.s <= LAST
  }

  /** ARM_LPAE_BLOCK_SIZE, in granules */
  function Block(c: Config, l: nat): (r: nat)
    requires l <= LAST
    ensures c.e > 0 ==> r > 0
    decreases LAST - l
  {
    if l == LAST then 1 else c.e * Block(c, l + 1)
  }

  /** The length of n blocks of level l. */
  function Span(c: Config, n: nat, l: nat): nat
    requires l <= LAST
  {
    n * Block(c, l)
  }

  /** The number of the block of level l that holds x. */
  function Region(c: Config, x: nat, l: nat): nat
    requires c.e > 0 && l <= LAST
    decreases LAST - l
  {
    if l == LAST then x else Region(c, x, l + 1) / c.e
  }

  /** ARM_LPAE_LVL_IDX */
  function Index(c: Config, x: nat, l: nat): (r: nat)
    requires c.e > 0 && l <= LAST
    ensures r < c.e
  {
    Region(c, x, l) % c.e
  }

  /** How far x is into its block of level l. */
  function Off(c: Config, x: nat, l: nat): (r: nat)
    requires c.e > 0 && l <= LAST
    ensures r < Block(c, l)
  {
    RegionBounds(c, x, l);
    x - Region(c, x, l) * Block(c, l)
  }

  /** The address space that the pgd covers. */
  predicate InRange(c: Config, x: nat) {
    c.e > 0 && c.s <= LAST && Region(c, x, c.s) < c.r
  }

  lemma {:induction false} RegionBounds(c: Config, x: nat, l: nat)
    requires c.e > 0 && l <= LAST
    ensures Region(c, x, l) * Block(c, l) <= x < Region(c, x, l) * Block(c, l) + Block(c, l)
    decreases LAST - l
  {
    if l < LAST {
      RegionBounds(c, x, l + 1);
      BoundsUp(Region(c, x, l + 1), Region(c, x, l), c.e, Block(c, l + 1), x);
    }
  }

  lemma {:induction false} BoundsUp(r1: nat, r: nat, e: nat, b: nat, x: nat)
    requires e > 0 && r == r1 / e && r1 * b <= x < r1 * b + b
    ensures r * (e * b) <= x < r * (e * b) + e * b
  {
    SplitMod(r1, e);
    MulMono(r * e, r1, b);
    MulMono(r1 + 1, r * e + e, b);
    assert r * (e * b) == r * e * b;
    assert (r1 + 1) * b == r1 * b + b;
    assert (r * e + e) * b == r * e * b + e * b;
  }

  // ----- ranges of addresses ----------------------------------------------------------------------

  lemma {:induction false} DivModUnique(m: nat, n: nat, e: nat)
    requires e > 0 && m / e == n / e && m % e == n % e
    ensures m == n
  {
    SplitMod(m, e);
    SplitMod(n, e);
  }

  /** Numbers in [m, m + k), where m and k fit into one group of e, are those in the same group with
      a remainder in the range. */
  lemma {:induction false} WithinGroup(m: nat, n: nat, k: nat, e: nat)
    requires e > 0 && m % e + k <= e
    ensures m <= n < m + k <==> n / e == m / e && m % e <= n % e < m % e + k
    ensures n / e == m / e ==> n - m == n % e - m % e
  {
    SplitMod(m, e);
    SplitMod(n, e);
    if m <= n < m + k {
      DivMod(n, e, m / e, n - m / e * e);
    }
  }

  lemma {:induction false} InBlocks(m: nat, k: nat, n: nat, b: nat, off: nat)
    requires off < b
    ensures m * b <= k * b + off < m * b + n * b <==> m <= k < m + n
    ensures k * b + off - m * b == (k - m) * b + off
  {
    assert (k - m) * b == k * b - m * b;
    assert (m + n) * b == m * b + n * b;
    if k < m {
      MulGap(k, m, b);
    } else if k < m + n {
      MulMono(m, k, b);
      MulGap(k, m + n, b);
    } else {
      MulMono(m + n, k, b);
    }
  }

  lemma {:induction false} RegionRange(c: Config, iova: nat, l: nat, n: nat, x: nat)
    requires c.e > 0 && l <= LAST && Off(c, iova, l) == 0
    ensures iova <= x < iova + Span(c, n, l) <==> Region(c, iova, l) <= Region(c, x, l) < Region(c, iova, l) + n
    ensures x - iova == (Region(c, x, l) - Region(c, iova, l)) * Block(c, l) + Off(c, x, l)
  {
    InBlocks(Region(c, iova, l), Region(c, x, l), n, Block(c, l), Off(c, x, l));
  }

  /** The addresses of n entries of one table, from the one for iova. */
  lemma {:induction false} EntryRange(c: Config, iova: nat, l: nat, n: nat, x: nat)
    requires c.e > 0 && l <= LAST && Off(c, iova, l) == 0 && Index(c, iova, l) + n <= c.e
    ensures iova <= x < iova + Span(c, n, l) <==>
            && Region(c, x, l) / c.e == Region(c, iova, l) / c.e
            && Index(c, iova, l) <= Index(c, x, l) < Index(c, iova, l) + n
    ensures Region(c, x, l) / c.e == Region(c, iova, l) / c.e ==>
            x - iova == (Index(c, x, l) - Index(c, iova, l)) * Block(c, l) + Off(c, x, l)
  {
    RegionRange(c, iova, l, n, x);
    WithinGroup(Region(c, iova, l), Region(c, x, l), n, c.e);
  }

  /** The offset in a block, from the offset in its part one level down. */
  lemma {:induction false} OffStep(c: Config, x: nat, l: nat)
    requires c.e > 0 && l < LAST
    ensures Off(c, x, l) == Index(c, x, l + 1) * Block(c, l + 1) + Off(c, x, l + 1)
  {
    var r1, b := Region(c, x, l + 1), Block(c, l + 1);
    SplitMod(r1, c.e);
    assert (r1 / c.e * c.e + r1 % c.e) * b == r1 / c.e * (c.e * b) + r1 % c.e * b;
  }

  /** The number of part i of region num, one level down. */
  function Child(c: Config, num: nat, i: nat): (r: nat)
    requires i < c.e
    ensures r / c.e == num && r % c.e == i
    decreases num
  {
    var r := if num == 0 then i else c.e + Child(c, num - 1, i);
    ChildDivMod(c, num, i, r);
    r
  }

  lemma {:induction false} ChildDivMod(c: Config, num: nat, i: nat, r: nat)
    requires i < c.e
    requires num == 0 ==> r == i
    requires num > 0 ==> r >= c.e && (r - c.e) / c.e == num - 1 && (r - c.e) % c.e == i
    ensures r / c.e == num && r % c.e == i
  {
    if num == 0 {
      DivMod(r, c.e, 0, r);
    } else {
      AddMultiple(r - c.e, c.e, 1);
    }
  }

  /** Address x is a multiple of the block size of level l. */
  predicate Aligned(c: Config, x: nat, l: nat)
    requires c.e > 0 && l <= LAST
    decreases LAST - l
  {
    l == LAST || (Index(c, x, l + 1) == 0 && Aligned(c, x, l + 1))
  }

  lemma {:induction false} AlignedOff(c: Config, x: nat, l: nat)
    requires c.e > 0 && l <= LAST
    ensures Aligned(c, x, l) <==> Off(c, x, l) == 0
    ensures Aligned(c, x, l) <==> x % Block(c, l) == 0
    decreases LAST - l
  {
    if l < LAST {
      AlignedOff(c, x, l + 1);
      OffStep(c, x, l);
      if Index(c, x, l + 1) > 0 {
        MulMono(1, Index(c, x, l + 1), Block(c, l + 1));
      }
    }
    DivMod(x, Block(c, l), Region(c, x, l), Off(c, x, l));
  }

  // ----- tables in memory ---------------------------------------------------------------------------

  /** A descriptor: zero, a block or page, or the address of a table with its child count. */
  datatype Pte = Zero | Leaf(phys: nat, prot: nat) | Table(addr: nat, count: nat)

  /** Where a table hangs: its level, the number of the region it translates, and its parent.  The
      algorithms never look at this; it is determined by the descriptors. */
  datatype Place = Place(lvl: nat, num: nat, up: nat)

  /** The tables by address, and the pages that the allocator can still give out. */
  datatype Heap = Heap(tables: map<nat, seq<Pte>>, place: map<nat, Place>, pool: set<nat>)

  predicate SizesFit(c: Config, h: Heap) {
    && h.place.Keys == h.tables.Keys && h.pool !! h.tables.Keys
    && c.root in h.tables && h.place[c.root].lvl == c.s && h.place[c.root].num == 0 && |h.tables[c.root]| == c.r
    && forall a :: a in h.tables && a != c.root ==> c.s < h.place[a].lvl <= LAST && |h.tables[a]| == c.e
  }

  predicate SameRegion(h: Heap, a: nat, b: nat) {
    a in h.place && b in h.place && h.place[a].lvl == h.place[b].lvl && h.place[a].num == h.place[b].num
  }

  /** No two tables translate the same region. */
  ghost predicate Distinct(h: Heap) {
    forall a, b :: SameRegion(h, a, b) ==> a == b
  }

  /** Number of entries in use among the first k. */
  function CountTo(ptes: seq<Pte>, k: nat): (r: nat)
    requires k <= |ptes|
    ensures r <= k
  {
    if k == 0 then 0 else CountTo(ptes, k - 1) + if ptes[k - 1].Zero? then 0 else 1
  }

  function Count(ptes: seq<Pte>): nat {
    CountTo(ptes, |ptes|)
  }

  /** Entry i of table a, if it points to a table, points to the table of its region, with a
      count of thirteen bits; for a last-level table it is the number of entries in use, as far as
      thirteen bits go. */
  predicate EntryFits(c: Config, h: Heap, a: nat, i: nat)
    requires c.e > 0 && a in h.tables && a in h.place && i < |h.tables[a]|
  {
    var p := h.tables[a][i];
    p.Table? ==>
      && h.place[a].lvl < LAST && p.addr in h.tables && p.addr in h.place
      && h.place[p.addr].lvl == h.place[a].lvl + 1 && h.place[p.addr].up == a
      && h.place[p.addr].num / c.e == h.place[a].num && h.place[p.addr].num % c.e == i && p.count < COUNTS
      && (h.place[p.addr].lvl == LAST ==> p.count == Count(h.tables[p.addr]) % COUNTS)
  }

  predicate EntriesFit(c: Config, h: Heap)
    requires c.e > 0 && h.place.Keys == h.tables.Keys
  {
    forall a, i {:trigger EntryFits(c, h, a, i)} :: a in h.tables && 0 <= i < |h.tables[a]| ==> EntryFits(c, h, a, i)
  }

  /** Table a hangs below the entry of its parent for its region. */
  predicate Anchored(c: Config, h: Heap, a: nat)
    requires c.e > 0 && a in h.place
  {
    var p, i := h.place[a].up, h.place[a].num % c.e;
    && p in h.tables && p in h.place && i < |h.tables[p]|
    && h.tables[p][i].Table? && h.tables[p][i].addr == a
    && h.place[a].lvl == h.place[p].lvl + 1 && h.place[a].num / c.e == h.place[p].num
  }

  predicate AllAnchored(c: Config, h: Heap)
    requires c.e > 0 && h.place.Keys == h.tables.Keys
  {
    forall a {:trigger Anchored(c, h, a)} :: a in h.tables && a != c.root ==> Anchored(c, h, a)
  }

  ghost predicate Inv(c: Config, h: Heap) {
    Good(c) && SizesFit(c, h) && Distinct(h) && EntriesFit(c, h) && AllAnchored(c, h)
  }

  // ----- the walk -------------------------------------------------------------------------------------

  datatype Translation = Fault | Phys(addr: nat, prot: nat)

  /** arm_lpae_iova_to_phys from table a at level l */
  function Walk(c: Config, h: Heap, a: nat, l: nat, x: nat): Translation
    requires c.e > 0 && l <= LAST
    decreases LAST - l
  {
    if a !in h.tables || Index(c, x, l) >= |h.tables[a]| then Fault
    else
      match h.tables[a][Index(c, x, l)]
      case Zero => Fault
      case Leaf(phys, prot) => Phys(phys + Off(c, x, l), prot)
      case Table(addr, _) => if l < LAST then Walk(c, h, addr, l + 1, x) else Fault
  }

  function Translate(c: Config, h: Heap, x: nat): Translation
    requires c.e > 0 && c.s <= LAST
  {
    Walk(c, h, c.root, c.s, x)
  }

  /** Table a has the entry for x. */
  predicate Covers(c: Config, h: Heap, a: nat, x: nat)
    requires c.e > 0
  {
    a in h.place && h.place[a].lvl <= LAST && Region(c, x, h.place[a].lvl) / c.e == h.place[a].num
  }

  lemma {:induction false} RootCovers(c: Config, h: Heap, x: nat)
    requires Inv(c, h) && InRange(c, x)
    ensures Covers(c, h, c.root, x) && Index(c, x, c.s) == Region(c, x, c.s)
  {
    DivMod(Region(c, x, c.s), c.e, 0, Region(c, x, c.s));
  }

  lemma {:induction false} IndexFits(c: Config, h: Heap, a: nat, x: nat)
    requires Inv(c, h) && a in h.tables && InRange(c, x)
    ensures Index(c, x, h.place[a].lvl) < |h.tables[a]|
  {
    if a == c.root {
      RootCovers(c, h, x);
    }
  }

  /** The walk goes on to a table that covers the address. */
  lemma {:induction false} ChildCovers(c: Config, h: Heap, a: nat, x: nat)
    requires Inv(c, h) && a in h.tables && Covers(c, h, a, x) && Index(c, x, h.place[a].lvl) < |h.tables[a]|
    requires h.tables[a][Index(c, x, h.place[a].lvl)].Table?
    ensures var t := h.tables[a][Index(c, x, h.place[a].lvl)].addr;
            && h.place[a].lvl < LAST && t in h.tables && t in h.place && h.place[t].lvl == h.place[a].lvl + 1
            && Covers(c, h, t, x)
  {
    var l := h.place[a].lvl;
    var t := h.tables[a][Index(c, x, l)].addr;
    assert EntryFits(c, h, a, Index(c, x, l));
    DivModUnique(h.place[t].num, Region(c, x, l), c.e);
  }

  /** The parent of a table that covers an address covers it too, at the entry for the table. */
  lemma {:induction false} ParentCovers(c: Config, h: Heap, a: nat, x: nat)
    requires Inv(c, h) && a in h.tables && a != c.root && Covers(c, h, a, x)
    ensures Anchored(c, h, a) && Covers(c, h, h.place[a].up, x) && h.place[a].lvl > c.s
    ensures Index(c, x, h.place[a].lvl - 1) == h.place[a].num % c.e
  {
    assert Anchored(c, h, a);
  }

  lemma {:induction false} WalkFromParent(c: Config, h: Heap, a: nat, x: nat)
    requires Inv(c, h) && a in h.tables && a != c.root && Covers(c, h, a, x)
    ensures Anchored(c, h, a) && h.place[a].lvl > 0
    ensures Walk(c, h, h.place[a].up, h.place[a].lvl - 1, x) == Walk(c, h, a, h.place[a].lvl, x)
  {
    ParentCovers(c, h, a, x);
  }

  /** The walk for an address passes through every table that covers it. */
  lemma {:induction false} WalkReaches(c: Config, h: Heap, a: nat, x: nat)
    requires Inv(c, h) && a in h.tables && Covers(c, h, a, x)
    ensures Translate(c, h, x) == Walk(c, h, a, h.place[a].lvl, x)
    decreases h.place[a].lvl
  {
    if a != c.root {
      ParentCovers(c, h, a, x);
      WalkFromParent(c, h, a, x);
      WalkReaches(c, h, h.place[a].up, x);
    }
  }

  /** An address with an entry in some table is in the range of the pgd. */
  lemma {:induction false} CoversInRange(c: Config, h: Heap, a: nat, x: nat)
    requires Inv(c, h) && a in h.tables && Covers(c, h, a, x) && Index(c, x, h.place[a].lvl) < |h.tables[a]|
    ensures InRange(c, x)
    decreases h.place[a].lvl
  {
    if a == c.root {
      SplitMod(Region(c, x, c.s), c.e);
    } else {
      ParentCovers(c, h, a, x);
      CoversInRange(c, h, h.place[a].up, x);
    }
  }

  /** An unused entry translates nothing. */
  lemma {:induction false} ZeroFaults(c: Config, h: Heap, a: nat, x: nat)
    requires Inv(c, h) && a in h.tables && Covers(c, h, a, x) && Index(c, x, h.place[a].lvl) < |h.tables[a]|
    requires h.tables[a][Index(c, x, h.place[a].lvl)].Zero?
    ensures InRange(c, x) && Translate(c, h, x) == Fault
  {
    CoversInRange(c, h, a, x);
    WalkReaches(c, h, a, x);
  }

  predicate SameEntry(p: Pte, q: Pte) {
    p == q || (p.Table? && q.Table? && p.addr == q.addr)
  }

  /** Where table a has the entry for x, it has the same one in h'. */
  predicate SameAt(c: Config, h: Heap, h': Heap, a: nat, x: nat)
    requires c.e > 0
  {
    a in h.tables && Covers(c, h, a, x) ==>
      var i := Index(c, x, h.place[a].lvl);
      a in h'.tables && |h'.tables[a]| == |h.tables[a]| &&
      (i < |h.tables[a]| ==> SameEntry(h.tables[a][i], h'.tables[a][i]))
  }

  predicate Unaffected(c: Config, h: Heap, h': Heap, x: nat)
    requires c.e > 0
  {
    forall a :: a in h.tables ==> SameAt(c, h, h', a, x)
  }

  /** An address whose entries are unaffected is translated as before. */
  lemma {:induction false} WalkSame(c: Config, h: Heap, h': Heap, a: nat, l: nat, x: nat)
    requires Inv(c, h) && Unaffected(c, h, h', x) && l <= LAST
    requires a in h.tables && h.place[a].lvl == l && Covers(c, h, a, x)
    ensures Walk(c, h, a, l, x) == Walk(c, h', a, l, x)
    decreases LAST - l
  {
    assert SameAt(c, h, h', a, x);
    var i := Index(c, x, l);
    if i < |h.tables[a]| && h.tables[a][i].Table? {
      ChildCovers(c, h, a, x);
      WalkSame(c, h, h', h.tables[a][i].addr, l + 1, x);
    }
  }

  lemma {:induction false} TranslateSame(c: Config, h: Heap, h': Heap, x: nat)
    requires Inv(c, h) && InRange(c, x) && Unaffected(c, h, h', x)
    ensures Translate(c, h', x) == Translate(c, h, x)
  {
    RootCovers(c, h, x);
    WalkSame(c, h, h', c.root, c.s, x);
  }
}
