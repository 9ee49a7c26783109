/** What mapping and unmapping do to translations, and how the entries that they write do it. */
module LpaeSpec {
  import opened LpaeTree
  import opened LpaeUpdate

  /** Exactly [iova, iova + len) gains a translation, to consecutive physical addresses. */
  ghost predicate Mapped(c: Config, h: Heap, h': Heap, iova: nat, len: nat, paddr: nat, prot: nat)
    requires c.e > 0 && c.s <= LAST
  {
    forall x: nat {:trigger Translate(c, h', x)} :: InRange(c, x) ==>
      Translate(c, h', x) == if iova <= x < iova + len then Phys(paddr + (x - iova), prot) else Translate(c, h, x)
  }

  /** Exactly [iova, iova + len) loses its translation. */
  ghost predicate Unmapped(c: Config, h: Heap, h': Heap, iova: nat, len: nat)
    requires c.e > 0 && c.s <= LAST
  {
    forall x: nat {:trigger Translate(c, h', x)} :: InRange(c, x) ==>
      Translate(c, h', x) == if iova <= x < iova + len then Fault else Translate(c, h, x)
  }

  ghost predicate SameMap(c: Config, h: Heap, h': Heap)
    requires c.e > 0 && c.s <= LAST
  {
    forall x: nat {:trigger Translate(c, h', x)} :: InRange(c, x) ==> Translate(c, h', x) == Translate(c, h, x)
  }

  /** No page of memory is lost or gained. */
  predicate SamePages(h: Heap, h': Heap) {
    h'.pool + h'.tables.Keys == h.pool + h.tables.Keys
  }

  // ----- runs of entries --------------------------------------------------------------------------

  /** The output address of the k-th of a run of entries. */
  function Nth(paddr: nat, k: nat, size: nat): nat {
    paddr + k * size
  }

  function Filled(ptes: seq<Pte>, i: nat, n: nat, paddr: nat, size: nat, prot: nat): (r: seq<Pte>)
    requires i + n <= |ptes|
    ensures |r| == |ptes|
    ensures forall j :: 0 <= j < |ptes| ==>
              r[j] == if i <= j < i + n then Leaf(Nth(paddr, j - i, size), prot) else ptes[j]
  {
    seq(|ptes|, j requires 0 <= j < |ptes| => if i <= j < i + n then Leaf(Nth(paddr, j - i, size), prot) else ptes[j])
  }

  function Erased(ptes: seq<Pte>, i: nat, n: nat): (r: seq<Pte>)
    requires i + n <= |ptes|
    ensures |r| == |ptes|
    ensures forall j :: 0 <= j < |ptes| ==> r[j] == if i <= j < i + n then Zero else ptes[j]
  {
    seq(|ptes|, j requires 0 <= j < |ptes| => if i <= j < i + n then Zero else ptes[j])
  }

  predicate AllZero(ptes: seq<Pte>, i: nat, n: nat) {
    i + n <= |ptes| && forall j :: i <= j < i + n ==> ptes[j].Zero?
  }

  predicate AllLeaf(ptes: seq<Pte>, i: nat, n: nat) {
    i + n <= |ptes| && forall j :: i <= j < i + n ==> ptes[j].Leaf?
  }

  /** How many of the n numbers from i on are below k. */
  function Upto(i: nat, n: nat, k: nat): nat {
    if k <= i then 0 else if k <= i + n then k - i else n
  }

  /** Using n more entries raises the count by n. */
  lemma {:induction false} CountMore(s: seq<Pte>, s': seq<Pte>, i: nat, n: nat, k: nat)
    requires |s'| == |s| && k <= |s| && AllZero(s, i, n) && AllLeaf(s', i, n)
    requires forall j :: 0 <= j < |s| && !(i <= j < i + n) ==> s'[j] == s[j]
    ensures CountTo(s', k) == CountTo(s, k) + Upto(i, n, k)
    decreases k
  {
    if k > 0 {
      CountMore(s, s', i, n, k - 1);
    }
  }

  lemma {:induction false} FilledCount(ptes: seq<Pte>, i: nat, n: nat, paddr: nat, size: nat, prot: nat)
    requires AllZero(ptes, i, n)
    ensures Count(Filled(ptes, i, n, paddr, size, prot)) == Count(ptes) + n
  {
    CountMore(ptes, Filled(ptes, i, n, paddr, size, prot), i, n, |ptes|);
  }

  lemma {:induction false} ErasedCount(ptes: seq<Pte>, i: nat, n: nat)
    requires AllLeaf(ptes, i, n)
    ensures Count(Erased(ptes, i, n)) + n == Count(ptes)
  {
    CountMore(Erased(ptes, i, n), ptes, i, n, |ptes|);
  }

  lemma {:induction false} ZeroCount(ptes: seq<Pte>, k: nat)
    requires k <= |ptes|
    ensures CountTo(ptes, k) == 0 <==> AllZero(ptes, 0, k)
    decreases k
  {
    if k > 0 {
      ZeroCount(ptes, k - 1);
    }
  }

  // ----- filling entries ------------------------------------------------------------------------------

  /** Table a has the n entries for the addresses from iova on. */
  predicate EntriesFor(c: Config, h: Heap, a: nat, iova: nat, n: nat)
    requires c.e > 0
  {
    && a in h.tables && a in h.place && Covers(c, h, a, iova)
    && Index(c, iova, h.place[a].lvl) + n <= |h.tables[a]|
    && Aligned(c, iova, h.place[a].lvl)
  }

  lemma {:induction false} TouchedByFill(c: Config, h: Heap, a: nat, iova: nat, n: nat, paddr: nat, prot: nat, x: nat)
    requires Inv(c, h) && EntriesFor(c, h, a, iova, n)
    requires AllZero(h.tables[a], Index(c, iova, h.place[a].lvl), n)
    ensures var l := h.place[a].lvl;
            var ptes := Filled(h.tables[a], Index(c, iova, l), n, paddr, Block(c, l), prot);
            && (Touched(c, h, a, ptes, x) <==> iova <= x < iova + Span(c, n, l))
            && (Touched(c, h, a, ptes, x) ==>
                 EntryTranslation(c, ptes[Index(c, x, l)], l, x) == Phys(paddr + (x - iova), prot))
  {
    AlignedOff(c, iova, h.place[a].lvl);
    EntryRange(c, iova, h.place[a].lvl, n, x);
  }

  /** Filling unused entries maps their addresses, and no others. */
  lemma {:induction false} FillMaps(c: Config, h: Heap, a: nat, iova: nat, n: nat, paddr: nat, prot: nat, count: nat)
    requires Inv(c, h) && EntriesFor(c, h, a, iova, n)
    requires AllZero(h.tables[a], Index(c, iova, h.place[a].lvl), n)
    requires GoodCount(
               c, h, a, Filled(h.tables[a], Index(c, iova, h.place[a].lvl), n, paddr, Block(c, h.place[a].lvl), prot),
               count)
    ensures var ptes := Filled(h.tables[a], Index(c, iova, h.place[a].lvl), n, paddr, Block(c, h.place[a].lvl), prot);
            var h' := Rewrite(c, h, a, ptes, count);
            Inv(c, h') && Mapped(c, h, h', iova, Span(c, n, h.place[a].lvl), paddr, prot)
  {
    var ptes := Filled(h.tables[a], Index(c, iova, h.place[a].lvl), n, paddr, Block(c, h.place[a].lvl), prot);
    RewriteKeeps(c, h, a, ptes, count);
    forall x: nat | InRange(c, x)
      ensures Translate(c, Rewrite(c, h, a, ptes, count), x) ==
              if iova <= x < iova + Span(c, n, h.place[a].lvl) then Phys(paddr + (x - iova), prot)
              else Translate(c, h, x)
    {
      RewriteTranslates(c, h, a, ptes, count, x);
      TouchedByFill(c, h, a, iova, n, paddr, prot, x);
    }
  }

  // ----- erasing entries ------------------------------------------------------------------------------

  lemma {:induction false} TouchedByErase(c: Config, h: Heap, a: nat, iova: nat, n: nat, x: nat)
    requires Inv(c, h) && EntriesFor(c, h, a, iova, n)
    requires AllLeaf(h.tables[a], Index(c, iova, h.place[a].lvl), n)
    ensures var l := h.place[a].lvl;
            var ptes := Erased(h.tables[a], Index(c, iova, l), n);
            && (Touched(c, h, a, ptes, x) <==> iova <= x < iova + Span(c, n, l))
            && (Touched(c, h, a, ptes, x) ==> ptes[Index(c, x, l)].Zero?)
  {
    AlignedOff(c, iova, h.place[a].lvl);
    EntryRange(c, iova, h.place[a].lvl, n, x);
  }

  /** Erasing entries unmaps their addresses, and no others. */
  lemma {:induction false} EraseUnmaps(c: Config, h: Heap, a: nat, iova: nat, n: nat, count: nat)
    requires Inv(c, h) && EntriesFor(c, h, a, iova, n)
    requires AllLeaf(h.tables[a], Index(c, iova, h.place[a].lvl), n)
    requires GoodCount(c, h, a, Erased(h.tables[a], Index(c, iova, h.place[a].lvl), n), count)
    ensures var h' := Rewrite(c, h, a, Erased(h.tables[a], Index(c, iova, h.place[a].lvl), n), count);
            Inv(c, h') && Unmapped(c, h, h', iova, Span(c, n, h.place[a].lvl))
  {
    var ptes := Erased(h.tables[a], Index(c, iova, h.place[a].lvl), n);
    RewriteKeeps(c, h, a, ptes, count);
    forall x: nat | InRange(c, x)
      ensures Translate(c, Rewrite(c, h, a, ptes, count), x) ==
              if iova <= x < iova + Span(c, n, h.place[a].lvl) then Fault else Translate(c, h, x)
    {
      RewriteTranslates(c, h, a, ptes, count, x);
      TouchedByErase(c, h, a, iova, n, x);
    }
  }

  // ----- a new, empty table -------------------------------------------------------------------------------

  function ZeroTable(c: Config): seq<Pte> {
    seq(c.e, _ => Zero)
  }

  lemma {:induction false} ZeroTableCount(c: Config)
    ensures Count(ZeroTable(c)) == 0
  {
    ZeroCount(ZeroTable(c), c.e);
  }

  /** An empty table below an unused entry changes no translation. */
  lemma {:induction false} InstallEmptySame(c: Config, h: Heap, a: nat, i: nat, t: nat)
    requires CanInstall(c, h, a, i, t, ZeroTable(c), 0) && h.tables[a][i].Zero?
    ensures var h' := Install(c, h, a, i, t, ZeroTable(c), 0); Inv(c, h') && SameMap(c, h, h') && SamePages(h, h')
  {
    InstallKeeps(c, h, a, i, t, ZeroTable(c), 0);
    forall x: nat | InRange(c, x)
      ensures Translate(c, Install(c, h, a, i, t, ZeroTable(c), 0), x) == Translate(c, h, x)
    {
      InstallTranslates(c, h, a, i, t, ZeroTable(c), 0, x);
      if Through(c, h, a, i, x) {
        WalkReaches(c, h, a, x);
      }
    }
  }

  lemma {:induction false} MappedAfterSame(
    c: Config, h: Heap, h1: Heap, h2: Heap, iova: nat, len: nat, paddr: nat, prot: nat)
    requires c.e > 0 && c.s <= LAST && SameMap(c, h, h1) && Mapped(c, h1, h2, iova, len, paddr, prot)
    ensures Mapped(c, h, h2, iova, len, paddr, prot)
  {
  }

  // ----- the steps of mapping ---------------------------------------------------------------------------

  function Min(x: nat, y: nat): nat {
    if x < y then x else y
  }

  lemma {:induction false} RunFits(c: Config, h: Heap, a: nat, iova: nat, pgcount: nat, n: nat)
    requires Inv(c, h) && a in h.tables && Covers(c, h, a, iova) && Aligned(c, iova, h.place[a].lvl)
    requires a == c.root ==> Index(c, iova, h.place[a].lvl) + pgcount <= c.r
    requires n == Min(pgcount, c.e - Index(c, iova, h.place[a].lvl))
    ensures EntriesFor(c, h, a, iova, n)
  {
  }

  lemma {:induction false} ChildPrev(c: Config, h: Heap, a: nat, i: nat)
    requires Inv(c, h) && a in h.tables && i < |h.tables[a]| && h.tables[a][i].Table?
    ensures var t := h.tables[a][i].addr;
            && t in h.place && t in h.tables && t != c.root && h.place[t].lvl == h.place[a].lvl + 1
            && h.place[t].up == a && h.place[t].num % c.e == i
  {
    assert EntryFits(c, h, a, i);
  }

  /** Rewriting a table first and its descriptor afterwards comes to the same. */
  lemma {:induction false} RewriteInSteps(c: Config, h: Heap, a: nat, ptes: seq<Pte>, count: nat)
    requires Inv(c, h) && a in h.tables && a != c.root
    ensures Anchored(c, h, a) && h.place[a].up != a
    ensures var p, j := h.place[a].up, h.place[a].num % c.e;
            var tables := h.tables[a := ptes];
            tables[p][j].Table? && tables[p := tables[p][j := Table(a, count)]] == Rewrite(c, h, a, ptes, count).tables
  {
    assert Anchored(c, h, a);
  }

  lemma {:induction false} FilledNext(ptes: seq<Pte>, i: nat, k: nat, paddr: nat, size: nat, prot: nat)
    requires i + k < |ptes|
    ensures Filled(ptes, i, k + 1, paddr, size, prot) ==
            Filled(ptes, i, k, paddr, size, prot)[i + k := Leaf(Nth(paddr, k, size), prot)]
  {
  }

  /** The child count in the descriptor that points to table a. */
  function CountOf(c: Config, h: Heap, a: nat): nat
    requires Inv(c, h) && a in h.tables
  {
    if a == c.root then 0 else assert Anchored(c, h, a); h.tables[h.place[a].up][h.place[a].num % c.e].count
  }

  lemma {:induction false} CountOfBits(c: Config, h: Heap, a: nat)
    requires Inv(c, h) && a in h.tables
    ensures CountOf(c, h, a) < COUNTS
  {
    if a != c.root {
      assert Anchored(c, h, a);
      assert EntryFits(c, h, h.place[a].up, h.place[a].num % c.e);
    }
  }

  lemma {:induction false} CountOfLast(c: Config, h: Heap, a: nat)
    requires Inv(c, h) && a in h.tables && a != c.root && h.place[a].lvl == LAST
    ensures CountOf(c, h, a) == Count(h.tables[a]) % COUNTS
  {
    assert Anchored(c, h, a);
    assert EntryFits(c, h, h.place[a].up, h.place[a].num % c.e);
  }

  /** Filled entries of table a, and its descriptor counting them. */
  function FillOf(c: Config, h: Heap, a: nat, i: nat, n: nat, paddr: nat, size: nat, prot: nat): Heap
    requires Inv(c, h) && a in h.tables && i + n <= |h.tables[a]|
  {
    Rewrite(c, h, a, Filled(h.tables[a], i, n, paddr, size, prot), (CountOf(c, h, a) + n) % COUNTS)
  }

  lemma {:induction false} FillStep(c: Config, h: Heap, a: nat, iova: nat, n: nat, paddr: nat, prot: nat)
    requires Inv(c, h) && EntriesFor(c, h, a, iova, n)
    requires AllZero(h.tables[a], Index(c, iova, h.place[a].lvl), n)
    ensures var l := h.place[a].lvl;
            var h' := FillOf(c, h, a, Index(c, iova, l), n, paddr, Block(c, l), prot);
            Inv(c, h') && Mapped(c, h, h', iova, Span(c, n, l), paddr, prot)
  {
    FillGoodCount(c, h, a, Index(c, iova, h.place[a].lvl), n, paddr, Block(c, h.place[a].lvl), prot);
    FillMaps(c, h, a, iova, n, paddr, prot, (CountOf(c, h, a) + n) % COUNTS);
  }

  /** Tables stay where they are. */
  predicate SamePlaces(h: Heap, h': Heap) {
    forall b :: b in h.place ==> b in h'.place && h'.place[b] == h.place[b]
  }

  lemma {:induction false} InstallEmptyStep(c: Config, h: Heap, a: nat, i: nat, t: nat)
    requires Inv(c, h) && a in h.tables && h.place[a].lvl < LAST && i < |h.tables[a]| && i < c.e && h.tables[a][i].Zero?
    requires t in h.pool
    ensures var h' := Install(c, h, a, i, t, ZeroTable(c), 0);
            && Inv(c, h') && SameMap(c, h, h') && SamePages(h, h') && SamePlaces(h, h')
            && NewAt(h, h', h.place[a].lvl + 1) && |h'.pool| == |h.pool| - 1
            && a in h'.tables && i < |h'.tables[a]| && h'.tables[a][i].Table?
  {
    ZeroTableCount(c);
    InstallEmptySame(c, h, a, i, t);
  }

  lemma {:induction false} ModSum(x: int, n: int)
    ensures (x % COUNTS + n) % COUNTS == (x + n) % COUNTS
  {
  }

  lemma {:induction false} FillGoodCount(c: Config, h: Heap, a: nat, i: nat, n: nat, paddr: nat, size: nat, prot: nat)
    requires Inv(c, h) && a in h.tables && AllZero(h.tables[a], i, n)
    ensures GoodCount(c, h, a, Filled(h.tables[a], i, n, paddr, size, prot), (CountOf(c, h, a) + n) % COUNTS)
  {
    if a != c.root && h.place[a].lvl == LAST {
      FilledCount(h.tables[a], i, n, paddr, size, prot);
      CountOfLast(c, h, a);
      ModSum(Count(h.tables[a]), n);
    }
  }

  // ----- empty tables -----------------------------------------------------------------------------------

  /** Table t is of the last level, below another table, and has no entry in use. */
  predicate EmptyLast(c: Config, h: Heap, t: nat) {
    && t in h.tables && t in h.place && t != c.root && h.place[t].lvl == LAST
    && AllZero(h.tables[t], 0, |h.tables[t]|)
  }

  /** No last-level table has been left without entries. */
  ghost predicate NoNewEmpty(c: Config, h: Heap, h': Heap) {
    forall t {:trigger EmptyLast(c, h', t)} :: EmptyLast(c, h', t) ==> EmptyLast(c, h, t)
  }

  /** Every last-level table below the root has an entry. */
  ghost predicate NoneEmpty(c: Config, h: Heap) {
    forall t {:trigger EmptyLast(c, h, t)} :: !EmptyLast(c, h, t)
  }

  lemma {:induction false} NoNewEmptyTrans(c: Config, h: Heap, h1: Heap, h2: Heap)
    requires NoNewEmpty(c, h, h1) && NoNewEmpty(c, h1, h2)
    ensures NoNewEmpty(c, h, h2)
  {
  }

  /** Rewriting table a can only empty table a. */
  lemma {:induction false} RewriteEmpty(c: Config, h: Heap, a: nat, ptes: seq<Pte>, count: nat, b: nat)
    requires Inv(c, h) && a in h.tables && EmptyLast(c, Rewrite(c, h, a, ptes, count), b)
    ensures b in h.tables
    ensures if b == a then AllZero(ptes, 0, |ptes|) else EmptyLast(c, h, b)
  {
    var h' := Rewrite(c, h, a, ptes, count);
    RewriteAt(c, h, a, ptes, count, b);
    if b != a {
      forall j | 0 <= j < |h.tables[b]|
        ensures h.tables[b][j].Zero?
      {
        assert SameEntry(h.tables[b][j], h'.tables[b][j]) && h'.tables[b][j].Zero?;
      }
    }
  }

  lemma {:induction false} FillNoNewEmpty(c: Config, h: Heap, a: nat, i: nat, n: nat, paddr: nat, size: nat, prot: nat)
    requires Inv(c, h) && a in h.tables && i + n <= |h.tables[a]|
    ensures NoNewEmpty(c, h, FillOf(c, h, a, i, n, paddr, size, prot))
  {
    var ptes := Filled(h.tables[a], i, n, paddr, size, prot);
    var h' := FillOf(c, h, a, i, n, paddr, size, prot);
    assert if n > 0 then ptes[i].Leaf? else ptes == h.tables[a];
    forall b | EmptyLast(c, h', b)
      ensures EmptyLast(c, h, b)
    {
      RewriteEmpty(c, h, a, ptes, (CountOf(c, h, a) + n) % COUNTS, b);
    }
  }

  /** Of the tables, only a new one can be empty that was not. */
  lemma {:induction false} InstallEmptyOnly(
    c: Config, h: Heap, a: nat, i: nat, t: nat, ptes: seq<Pte>, count: nat, b: nat)
    requires Inv(c, h) && a in h.tables && h.place[a].lvl < LAST && i < |h.tables[a]| && i < c.e && t in h.pool
    requires EmptyLast(c, Install(c, h, a, i, t, ptes, count), b) && b != t
    ensures EmptyLast(c, h, b)
  {
  }

  // ----- why mapping can fail ---------------------------------------------------------------------------

  /** Table b, below level k, has an entry for x. */
  ghost predicate TableAt(c: Config, h: Heap, k: nat, x: nat, b: nat)
    requires c.e > 0
  {
    b in h.place && h.place[b].lvl > k && Covers(c, h, b, x)
  }

  /** Address x is mapped, or a table for smaller blocks is in its place. */
  ghost predicate InUse(c: Config, h: Heap, k: nat, x: nat)
    requires c.e > 0 && c.s <= LAST
  {
    InRange(c, x) && (Translate(c, h, x) != Fault || exists b :: TableAt(c, h, k, x, b))
  }

  ghost predicate InTheWay(c: Config, h: Heap, iova: nat, len: nat, k: nat)
    requires c.e > 0 && c.s <= LAST
  {
    exists x :: iova <= x < iova + len && InUse(c, h, k, x)
  }

  /** All tables that are new are of level l. */
  ghost predicate NewAt(h: Heap, h': Heap, l: nat) {
    forall b :: b in h'.place ==> (b in h.place && h'.place[b] == h.place[b]) || h'.place[b].lvl == l
  }

  /** An entry in use is in the way. */
  lemma {:induction false} UsedEntry(c: Config, h: Heap, a: nat, x: nat)
    requires Inv(c, h) && a in h.tables && Covers(c, h, a, x) && Index(c, x, h.place[a].lvl) < |h.tables[a]|
    requires !h.tables[a][Index(c, x, h.place[a].lvl)].Zero?
    ensures InUse(c, h, h.place[a].lvl, x)
  {
    CoversInRange(c, h, a, x);
    var p := h.tables[a][Index(c, x, h.place[a].lvl)];
    if p.Table? {
      ChildCovers(c, h, a, x);
      assert TableAt(c, h, h.place[a].lvl, x, p.addr);
    } else {
      WalkReaches(c, h, a, x);
    }
  }

  /** Below an entry that points to no table there is no table. */
  lemma {:induction false} NoTableBelow(c: Config, h: Heap, a: nat, x: nat, b: nat)
    requires Inv(c, h) && a in h.tables && Covers(c, h, a, x) && Index(c, x, h.place[a].lvl) < |h.tables[a]|
    requires !h.tables[a][Index(c, x, h.place[a].lvl)].Table? && b in h.tables && Covers(c, h, b, x)
    ensures h.place[b].lvl <= h.place[a].lvl
    decreases h.place[b].lvl
  {
    if h.place[b].lvl > h.place[a].lvl {
      var p := h.place[b].up;
      ParentCovers(c, h, b, x);
      NoTableBelow(c, h, a, x, p);
      assert SameRegion(h, p, a);
    }
  }

  /** An address with an unused entry is not in use. */
  lemma {:induction false} UnusedEntry(c: Config, h: Heap, a: nat, x: nat)
    requires Inv(c, h) && a in h.tables && Covers(c, h, a, x) && Index(c, x, h.place[a].lvl) < |h.tables[a]|
    requires h.tables[a][Index(c, x, h.place[a].lvl)].Zero?
    ensures !InUse(c, h, h.place[a].lvl, x)
  {
    ZeroFaults(c, h, a, x);
    forall b | b in h.place && Covers(c, h, b, x)
      ensures h.place[b].lvl <= h.place[a].lvl
    {
      NoTableBelow(c, h, a, x, b);
    }
  }

  /** Nothing is in the way of unused entries. */
  lemma {:induction false} UnusedRun(c: Config, h: Heap, a: nat, iova: nat, n: nat)
    requires Inv(c, h) && EntriesFor(c, h, a, iova, n) && AllZero(h.tables[a], Index(c, iova, h.place[a].lvl), n)
    ensures !InTheWay(c, h, iova, Span(c, n, h.place[a].lvl), h.place[a].lvl)
  {
    var l := h.place[a].lvl;
    AlignedOff(c, iova, l);
    assert |h.tables[a]| <= c.e;
    forall x | iova <= x < iova + Span(c, n, l)
      ensures !InUse(c, h, l, x)
    {
      EntryRange(c, iova, l, n, x);
      UnusedEntry(c, h, a, x);
    }
  }

  /** A block above the level of the request is in the way too. */
  lemma {:induction false} UsedBlock(c: Config, h: Heap, a: nat, x: nat, k: nat)
    requires Inv(c, h) && a in h.tables && Covers(c, h, a, x) && Index(c, x, h.place[a].lvl) < |h.tables[a]|
    requires h.tables[a][Index(c, x, h.place[a].lvl)].Leaf?
    ensures InUse(c, h, k, x)
  {
    CoversInRange(c, h, a, x);
    WalkReaches(c, h, a, x);
  }

  lemma {:induction false} InTheWayBefore(c: Config, h: Heap, h1: Heap, l: nat, iova: nat, len: nat, k: nat)
    requires c.e > 0 && c.s <= LAST && SameMap(c, h, h1) && NewAt(h, h1, l) && l <= k && InTheWay(c, h1, iova, len, k)
    ensures InTheWay(c, h, iova, len, k)
  {
    var x :| iova <= x < iova + len && InUse(c, h1, k, x);
    if Translate(c, h1, x) == Fault {
      var b :| TableAt(c, h1, k, x, b);
      assert TableAt(c, h, k, x, b);
    }
    assert InUse(c, h, k, x);
  }

  /** What is in the way stays there. */
  lemma {:induction false} InTheWayAfter(c: Config, h: Heap, h1: Heap, iova: nat, len: nat, k: nat)
    requires c.e > 0 && c.s <= LAST && SameMap(c, h, h1) && SamePlaces(h, h1) && InTheWay(c, h, iova, len, k)
    ensures InTheWay(c, h1, iova, len, k)
  {
    var x :| iova <= x < iova + len && InUse(c, h, k, x);
    if Translate(c, h1, x) == Fault {
      var b :| TableAt(c, h, k, x, b);
      assert TableAt(c, h1, k, x, b);
    }
    assert InUse(c, h1, k, x);
  }

  /** Either nothing was in the way and the whole run is mapped, or no translation changes; and then
      something is in the way, or no page is left for a table.  No last-level table is left empty. */
  ghost predicate MapOutcome(
    c: Config, h: Heap, h': Heap, l: nat, iova: nat, len: nat, paddr: nat, k: nat, prot: nat, r: MapResult)
  {
    && Inv(c, h) && Inv(c, h') && SamePages(h, h') && SamePlaces(h, h') && NoNewEmpty(c, h, h')
    && (r.MapOk? ==> Mapped(c, h, h', iova, len, paddr, prot) && !InTheWay(c, h, iova, len, k))
    && (!r.MapOk? ==> SameMap(c, h, h') && (r.Exists? || r.NoMemory?))
    && (r.Exists? ==> InTheWay(c, h, iova, len, k))
    && (r.NoMemory? ==> |h.pool| + l < k)
  }

  datatype MapResult = MapOk | Exists | NoMemory | Invalid | OutOfRange

  /** The step to table t of the next level, which may be new and is then empty. */
  ghost predicate NextStep(c: Config, h: Heap, h1: Heap, l: nat, t: nat) {
    && Inv(c, h) && Inv(c, h1) && SameMap(c, h, h1) && SamePages(h, h1) && SamePlaces(h, h1) && NewAt(h, h1, l + 1)
    && |h.pool| <= |h1.pool| + 1
    && (forall b {:trigger EmptyLast(c, h1, b)} :: EmptyLast(c, h1, b) ==> EmptyLast(c, h, b) || b == t)
  }

  /** A new last-level table does not stay empty: nothing is in the way of filling it. */
  lemma {:induction false} NewIsFilled(
    c: Config, h1: Heap, h2: Heap, t: nat, iova: nat, n: nat, paddr: nat, prot: nat, r: MapResult)
    requires Inv(c, h1) && EmptyLast(c, h1, t) && Covers(c, h1, t, iova) && 0 < n <= c.e - Index(c, iova, LAST)
    requires MapOutcome(c, h1, h2, LAST, iova, Span(c, n, LAST), paddr, LAST, prot, r)
    ensures r.MapOk? && !EmptyLast(c, h2, t)
  {
    assert Aligned(c, iova, LAST);
    UnusedRun(c, h1, t, iova, n);
    assert Span(c, n, LAST) == n;
    if EmptyLast(c, h2, t) {
      CoversInRange(c, h1, t, iova);
      assert Covers(c, h2, t, iova);
      ZeroFaults(c, h2, t, iova);
    }
  }

  lemma {:induction false} EmptyAfterInstall(
    c: Config, h: Heap, h1: Heap, h2: Heap, l: nat, t: nat, iova: nat, n: nat, paddr: nat, k: nat, prot: nat,
    r: MapResult)
    requires NextStep(c, h, h1, l, t) && l < k <= LAST && t in h1.tables && h1.place[t].lvl == l + 1
    requires Covers(c, h1, t, iova)
    requires 0 < n <= c.e - Index(c, iova, k) && MapOutcome(c, h1, h2, l + 1, iova, Span(c, n, k), paddr, k, prot, r)
    ensures NoNewEmpty(c, h, h2)
  {
    forall b | EmptyLast(c, h2, b)
      ensures EmptyLast(c, h, b)
    {
      assert EmptyLast(c, h1, b);
      if b == t {
        NewIsFilled(c, h1, h2, t, iova, n, paddr, prot, r);
      }
    }
  }

  lemma {:induction false} OutcomeAfterInstall(
    c: Config, h: Heap, h1: Heap, h2: Heap, l: nat, t: nat, iova: nat, n: nat, paddr: nat, k: nat, prot: nat,
    r: MapResult)
    requires NextStep(c, h, h1, l, t) && l < k <= LAST && t in h1.tables && h1.place[t].lvl == l + 1
    requires Covers(c, h1, t, iova)
    requires 0 < n <= c.e - Index(c, iova, k) && MapOutcome(c, h1, h2, l + 1, iova, Span(c, n, k), paddr, k, prot, r)
    ensures MapOutcome(c, h, h2, l, iova, Span(c, n, k), paddr, k, prot, r)
  {
    EmptyAfterInstall(c, h, h1, h2, l, t, iova, n, paddr, k, prot, r);
    WayAfterInstall(c, h, h1, l + 1, iova, Span(c, n, k), k);
    if r.MapOk? {
      MappedAfterSame(c, h, h1, h2, iova, Span(c, n, k), paddr, prot);
    }
  }

  lemma {:induction false} WayAfterInstall(c: Config, h: Heap, h1: Heap, l: nat, iova: nat, len: nat, k: nat)
    requires c.e > 0 && c.s <= LAST && SameMap(c, h, h1) && SamePlaces(h, h1) && NewAt(h, h1, l) && l <= k
    ensures InTheWay(c, h, iova, len, k) <==> InTheWay(c, h1, iova, len, k)
  {
    if InTheWay(c, h, iova, len, k) {
      InTheWayAfter(c, h, h1, iova, len, k);
    }
    if InTheWay(c, h1, iova, len, k) {
      InTheWayBefore(c, h, h1, l, iova, len, k);
    }
  }
}
