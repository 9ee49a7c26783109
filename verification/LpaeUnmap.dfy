/** How unmapping changes the tables: entries are erased, tables are freed when their last entry
    goes, and a block is split into a table of smaller ones. */
module LpaeUnmap {
  import opened Arith
  import opened LpaeTree
  import opened LpaeUpdate
  import opened LpaeSpec

  // ----- one block after another ------------------------------------------------------------------

  /** The address j blocks further on. */
  lemma {:induction false} RegionAt(c: Config, iova: nat, l: nat, j: nat)
    requires c.e > 0 && l <= LAST && Aligned(c, iova, l)
    ensures Region(c, iova + Span(c, j, l), l) == Region(c, iova, l) + j && Aligned(c, iova + Span(c, j, l), l)
  {
    AlignedOff(c, iova, l);
    AddMultiples(Region(c, iova, l), j, Block(c, l));
    RegionIs(c, iova + Span(c, j, l), l, Region(c, iova, l) + j);
  }

  lemma {:induction false} AddMultiples(r: nat, j: nat, b: nat)
    ensures (r + j) * b == r * b + j * b
  {
  }

  /** The block that starts at x. */
  lemma {:induction false} RegionIs(c: Config, x: nat, l: nat, q: nat)
    requires c.e > 0 && l <= LAST && x == Span(c, q, l)
    ensures Region(c, x, l) == q && Aligned(c, x, l)
  {
    DivMod(x, Block(c, l), q, 0);
    DivMod(x, Block(c, l), Region(c, x, l), Off(c, x, l));
    AlignedOff(c, x, l);
  }

  lemma {:induction false} NextEntry(c: Config, h: Heap, a: nat, iova: nat, j: nat)
    requires Inv(c, h) && a in h.tables && Covers(c, h, a, iova) && Aligned(c, iova, h.place[a].lvl)
    requires Index(c, iova, h.place[a].lvl) + j < c.e
    ensures var x := iova + Span(c, j, h.place[a].lvl);
            && Covers(c, h, a, x) && Index(c, x, h.place[a].lvl) == Index(c, iova, h.place[a].lvl) + j
            && Aligned(c, x, h.place[a].lvl)
  {
    var l := h.place[a].lvl;
    RegionAt(c, iova, l, j);
    SplitMod(Region(c, iova, l), c.e);
    DivMod(Region(c, iova, l) + j, c.e, Region(c, iova, l) / c.e, Index(c, iova, l) + j);
  }

  lemma {:induction false} UnmappedJoin(c: Config, h0: Heap, h1: Heap, h2: Heap, iova: nat, len1: nat, len2: nat)
    requires c.e > 0 && c.s <= LAST && Unmapped(c, h0, h1, iova, len1) && Unmapped(c, h1, h2, iova + len1, len2)
    ensures Unmapped(c, h0, h2, iova, len1 + len2)
  {
  }

  lemma {:induction false} SpanNext(c: Config, j: nat, l: nat)
    requires l <= LAST
    ensures Span(c, j + 1, l) == Span(c, j, l) + Span(c, 1, l)
  {
    assert (j + 1) * Block(c, l) == j * Block(c, l) + Block(c, l);
  }

  /** One entry's addresses. */
  lemma {:induction false} ThroughRange(c: Config, h: Heap, a: nat, iova: nat, x: nat)
    requires Inv(c, h) && a in h.tables && Covers(c, h, a, iova) && Aligned(c, iova, h.place[a].lvl)
    ensures Through(c, h, a, Index(c, iova, h.place[a].lvl), x) <==> iova <= x < iova + Span(c, 1, h.place[a].lvl)
  {
    AlignedOff(c, iova, h.place[a].lvl);
    EntryRange(c, iova, h.place[a].lvl, 1, x);
  }

  /** Taking away what is below an entry unmaps its addresses. */
  lemma {:induction false} PruneUnmaps(c: Config, h: Heap, a: nat, iova: nat)
    requires Inv(c, h) && a in h.tables && Covers(c, h, a, iova) && Aligned(c, iova, h.place[a].lvl)
    requires CanPrune(c, h, a, Index(c, iova, h.place[a].lvl))
    ensures var h' := Prune(c, h, a, Index(c, iova, h.place[a].lvl));
            Inv(c, h') && Unmapped(c, h, h', iova, Span(c, 1, h.place[a].lvl))
  {
    var i := Index(c, iova, h.place[a].lvl);
    PruneKeeps(c, h, a, i);
    forall x: nat | InRange(c, x)
      ensures Translate(c, Prune(c, h, a, i), x) ==
              if iova <= x < iova + Span(c, 1, h.place[a].lvl) then Fault else Translate(c, h, x)
    {
      PruneTranslates(c, h, a, i, x);
      ThroughRange(c, h, a, iova, x);
    }
  }

  // ----- the tables below an entry ------------------------------------------------------------------------

  lemma {:induction false} UpStep(c: Config, num: nat, k: nat)
    requires c.e > 0
    ensures Up(c, num, k + 1) == Up(c, num, k) / c.e
    decreases k
  {
    if k > 0 {
      UpStep(c, num / c.e, k - 1);
    }
  }

  /** Above every table of a region there is the region's own table. */
  lemma {:induction false} OwnTable(c: Config, h: Heap, l: nat, q: nat, b: nat) returns (t: nat)
    requires Inv(c, h) && c.s <= l && b in h.tables && Below(c, h, l, q, b)
    ensures t in h.tables && t in h.place && h.place[t].lvl == l + 1 && h.place[t].num == q
    decreases h.place[b].lvl
  {
    if h.place[b].lvl == l + 1 {
      t := b;
    } else {
      ParentBelow(c, h, l, q, b);
      t := OwnTable(c, h, l, q, h.place[b].up);
    }
  }

  /** Table a and everything below it. */
  function Subtree(c: Config, h: Heap, a: nat): set<nat>
    requires c.e > 0 && a in h.place
  {
    if h.place[a].lvl == 0 then {} else AllBelow(c, h, h.place[a].lvl - 1, h.place[a].num)
  }

  /** What is below the first n entries of table a. */
  function BelowFirst(c: Config, h: Heap, a: nat, n: nat): set<nat>
    requires c.e > 0 && a in h.place
  {
    set b | b in h.place && BelowEntry(c, h, a, b) && EntryOf(c, h, a, b) < n
  }

  predicate BelowEntry(c: Config, h: Heap, a: nat, b: nat)
    requires c.e > 0 && a in h.place
  {
    && b in h.place && h.place[b].lvl > h.place[a].lvl
    && Up(c, h.place[b].num, h.place[b].lvl - h.place[a].lvl) == h.place[a].num
  }

  /** The entry of a by which b is reached. */
  function EntryOf(c: Config, h: Heap, a: nat, b: nat): nat
    requires c.e > 0 && a in h.place && b in h.place && h.place[b].lvl > h.place[a].lvl
  {
    Up(c, h.place[b].num, h.place[b].lvl - 1 - h.place[a].lvl) % c.e
  }

  /** A table below entry i of a is in the subtree that the entry points to. */
  lemma {:induction false} EntryLeads(c: Config, h: Heap, a: nat, b: nat)
    requires Inv(c, h) && a in h.tables && b in h.tables && BelowEntry(c, h, a, b)
    ensures var i := EntryOf(c, h, a, b);
            && i < |h.tables[a]| && h.tables[a][i].Table? && h.tables[a][i].addr in h.place
            && b in Subtree(c, h, h.tables[a][i].addr)
  {
    var l := h.place[a].lvl;
    var q := Up(c, h.place[b].num, h.place[b].lvl - 1 - l);
    UpStep(c, h.place[b].num, h.place[b].lvl - 1 - l);
    LevelAbove(c, h, a);
    var t := OwnTable(c, h, l, q, b);
    assert t != c.root && Anchored(c, h, t);
    assert SameRegion(h, h.place[t].up, a);
  }

  lemma {:induction false} LevelAbove(c: Config, h: Heap, a: nat)
    requires Inv(c, h) && a in h.tables
    ensures c.s <= h.place[a].lvl <= LAST
  {
  }

  /** And the subtree that an entry points to is below that entry. */
  lemma {:induction false} SubtreeOfEntry(c: Config, h: Heap, a: nat, i: nat, b: nat)
    requires Inv(c, h) && a in h.tables && i < |h.tables[a]| && h.tables[a][i].Table?
    requires h.tables[a][i].addr in h.place
    requires b in Subtree(c, h, h.tables[a][i].addr)
    ensures BelowEntry(c, h, a, b) && EntryOf(c, h, a, b) == i
  {
    assert EntryFits(c, h, a, i);
    UpStep(c, h.place[b].num, h.place[b].lvl - 1 - h.place[a].lvl);
  }

  lemma {:induction false} BelowFirstNext(c: Config, h: Heap, a: nat, n: nat)
    requires Inv(c, h) && a in h.tables && n < |h.tables[a]|
    ensures h.tables[a][n].Table? ==>
              && h.tables[a][n].addr in h.place
              && BelowFirst(c, h, a, n + 1) == BelowFirst(c, h, a, n) + Subtree(c, h, h.tables[a][n].addr)
              && BelowFirst(c, h, a, n) !! Subtree(c, h, h.tables[a][n].addr)
    ensures !h.tables[a][n].Table? ==> BelowFirst(c, h, a, n + 1) == BelowFirst(c, h, a, n)
  {
    assert EntryFits(c, h, a, n);
    forall b | b in h.tables && BelowEntry(c, h, a, b)
      ensures var i := EntryOf(c, h, a, b);
              && i < |h.tables[a]| && h.tables[a][i].Table? && h.tables[a][i].addr in h.place
              && b in Subtree(c, h, h.tables[a][i].addr)
    {
      EntryLeads(c, h, a, b);
    }
    if h.tables[a][n].Table? {
      forall b | b in Subtree(c, h, h.tables[a][n].addr)
        ensures BelowEntry(c, h, a, b) && EntryOf(c, h, a, b) == n
      {
        SubtreeOfEntry(c, h, a, n, b);
      }
    }
  }

  /** The tables that go with entry i of table a. */
  function BelowOne(c: Config, h: Heap, a: nat, i: nat): set<nat>
    requires c.e > 0 && a in h.tables && i < |h.tables[a]|
  {
    if h.tables[a][i].Table? && h.tables[a][i].addr in h.place then Subtree(c, h, h.tables[a][i].addr) else {}
  }

  lemma {:induction false} BelowOneNext(c: Config, h: Heap, a: nat, i: nat)
    requires Inv(c, h) && a in h.tables && a != c.root && i < |h.tables[a]|
    ensures BelowFirst(c, h, a, i + 1) == BelowFirst(c, h, a, i) + BelowOne(c, h, a, i)
    ensures BelowFirst(c, h, a, i) !! BelowOne(c, h, a, i)
    ensures a !in BelowFirst(c, h, a, i) && BelowOne(c, h, a, i) <= Subtree(c, h, a)
  {
    BelowFirstNext(c, h, a, i);
    SubtreeIs(c, h, a);
    assert BelowFirst(c, h, a, i + 1) <= BelowFirst(c, h, a, |h.tables[a]|);
  }

  /** The subtree of a table is the table and what is below its entries. */
  lemma {:induction false} SubtreeIs(c: Config, h: Heap, a: nat)
    requires Inv(c, h) && a in h.tables && a != c.root
    ensures h.place[a].lvl > 0
    ensures Subtree(c, h, a) == {a} + BelowFirst(c, h, a, |h.tables[a]|)
    ensures a !in BelowFirst(c, h, a, |h.tables[a]|)
    ensures h.place[a].lvl == LAST ==> BelowFirst(c, h, a, |h.tables[a]|) == {}
  {
    forall b | b in h.tables
      ensures b in Subtree(c, h, a) <==> b == a || BelowEntry(c, h, a, b)
      ensures BelowEntry(c, h, a, b) ==> EntryOf(c, h, a, b) < |h.tables[a]|
    {
      InSubtree(c, h, a, b);
      if BelowEntry(c, h, a, b) {
        EntryLeads(c, h, a, b);
      }
    }
  }

  lemma {:induction false} InSubtree(c: Config, h: Heap, a: nat, b: nat)
    requires Inv(c, h) && a in h.tables && a != c.root && b in h.tables
    ensures h.place[a].lvl > 0
    ensures b in Subtree(c, h, a) <==> b == a || BelowEntry(c, h, a, b)
  {
    if b in Subtree(c, h, a) && h.place[b].lvl == h.place[a].lvl {
      assert SameRegion(h, a, b);
    }
  }

  /** What is below an entry is the subtree that it points to. */
  lemma {:induction false} BelowTable(c: Config, h: Heap, a: nat, i: nat)
    requires Inv(c, h) && a in h.tables && i < |h.tables[a]| && h.tables[a][i].Table? && i < c.e
    ensures h.tables[a][i].addr in h.place
    ensures AllBelow(c, h, h.place[a].lvl, Child(c, h.place[a].num, i)) == Subtree(c, h, h.tables[a][i].addr)
  {
    assert EntryFits(c, h, a, i);
    DivModUnique(h.place[h.tables[a][i].addr].num, Child(c, h.place[a].num, i), c.e);
  }

  // ----- erasing entries and freeing the table -------------------------------------------------------

  /** Erased entries of table a, and its descriptor no longer counting them. */
  function EraseOf(c: Config, h: Heap, a: nat, i: nat, n: nat): Heap
    requires Inv(c, h) && a in h.tables && i + n <= |h.tables[a]|
  {
    Rewrite(c, h, a, Erased(h.tables[a], i, n), (CountOf(c, h, a) - n) % COUNTS)
  }

  lemma {:induction false} EraseGoodCount(c: Config, h: Heap, a: nat, i: nat, n: nat)
    requires Inv(c, h) && a in h.tables && AllLeaf(h.tables[a], i, n)
    ensures GoodCount(c, h, a, Erased(h.tables[a], i, n), (CountOf(c, h, a) - n) % COUNTS)
  {
    if a != c.root && h.place[a].lvl == LAST {
      ErasedCount(h.tables[a], i, n);
      CountOfLast(c, h, a);
      ModSum(Count(h.tables[a]), 0 - n);
    }
  }

  lemma {:induction false} EraseStep(c: Config, h: Heap, a: nat, iova: nat, n: nat)
    requires Inv(c, h) && EntriesFor(c, h, a, iova, n)
    requires AllLeaf(h.tables[a], Index(c, iova, h.place[a].lvl), n)
    ensures var l := h.place[a].lvl;
            var h' := EraseOf(c, h, a, Index(c, iova, l), n);
            Inv(c, h') && Unmapped(c, h, h', iova, Span(c, n, l))
  {
    EraseGoodCount(c, h, a, Index(c, iova, h.place[a].lvl), n);
    EraseUnmaps(c, h, a, iova, n, (CountOf(c, h, a) - n) % COUNTS);
  }

  /** The stored count tells exactly whether the last entry is gone, although it is kept in
      thirteen bits only and has wrapped to zero when all of 8192 entries are in use. */
  lemma {:induction false} LastEntryGoes(c: Config, h: Heap, a: nat, i: nat, n: nat)
    requires Inv(c, h) && a in h.tables && a != c.root && h.place[a].lvl == LAST && AllLeaf(h.tables[a], i, n) && n > 0
    ensures (CountOf(c, h, a) - n) % COUNTS == 0 <==> AllZero(Erased(h.tables[a], i, n), 0, c.e)
  {
    ErasedCount(h.tables[a], i, n);
    CountOfLast(c, h, a);
    CountWraps(Count(h.tables[a]), n);
    ZeroCount(Erased(h.tables[a], i, n), c.e);
  }

  lemma {:induction false} CountWraps(x: nat, n: nat)
    requires 0 < n <= x <= COUNTS
    ensures (x % COUNTS - n) % COUNTS == 0 <==> x == n
  {
  }

  /** Freeing a last-level table without entries changes no translation, and frees only that. */
  lemma {:induction false} FreeEmptyTable(c: Config, h: Heap, a: nat, i: nat, t: nat)
    requires Inv(c, h) && a in h.tables && i < |h.tables[a]| && i < c.e && h.tables[a][i].Table?
    requires h.tables[a][i].addr == t
    requires h.place[a].lvl == LAST - 1 && t in h.tables && AllZero(h.tables[t], 0, c.e)
    ensures var h' := Prune(c, h, a, i);
            && Inv(c, h') && SameMap(c, h, h')
            && h' == Heap(h.tables[a := h.tables[a][i := Zero]] - {t}, h.place - {t}, h.pool + {t})
  {
    ChildPrev(c, h, a, i);
    assert EntryFits(c, h, a, i);
    BelowTable(c, h, a, i);
    SubtreeIs(c, h, t);
    PruneKeeps(c, h, a, i);
    forall x: nat | InRange(c, x)
      ensures Translate(c, Prune(c, h, a, i), x) == Translate(c, h, x)
    {
      PruneTranslates(c, h, a, i, x);
      if Through(c, h, a, i, x) {
        EmptyTableFaults(c, h, a, x);
      }
    }
  }

  lemma {:induction false} EmptyTableFaults(c: Config, h: Heap, a: nat, x: nat)
    requires Inv(c, h) && a in h.tables && Covers(c, h, a, x) && InRange(c, x)
    requires h.place[a].lvl == LAST - 1 && Index(c, x, LAST - 1) < |h.tables[a]|
    requires var p := h.tables[a][Index(c, x, LAST - 1)];
             p.Table? && p.addr in h.tables && AllZero(h.tables[p.addr], 0, c.e)
    ensures Translate(c, h, x) == Fault
  {
    ChildCovers(c, h, a, x);
    var t := h.tables[a][Index(c, x, LAST - 1)].addr;
    WalkReaches(c, h, t, x);
    IndexFits(c, h, t, x);
  }

  /** Mapped pages have leaf entries in the last-level table. */
  lemma {:induction false} MappedMeansLeaf(c: Config, h: Heap, t: nat, iova: nat, j: nat)
    requires Inv(c, h) && t in h.tables && h.place[t].lvl == LAST && Covers(c, h, t, iova)
    requires Index(c, iova, LAST) + j < |h.tables[t]| && Translate(c, h, iova + j) != Fault
    ensures h.tables[t][Index(c, iova, LAST) + j].Leaf?
  {
    assert Index(c, iova, LAST) + j < c.e;
    NextEntry(c, h, t, iova, j);
    assert Span(c, j, LAST) == j;
    WalkReaches(c, h, t, iova + j);
    assert EntryFits(c, h, t, Index(c, iova, LAST) + j);
  }

  // ----- splitting a block --------------------------------------------------------------------------------

  /** A table of parts of the block at blk, leaving out n entries from i on. */
  function SplitTable(c: Config, blk: nat, prot: nat, size: nat, i: nat, n: nat): (r: seq<Pte>)
    ensures |r| == c.e
    ensures forall j :: 0 <= j < c.e ==> r[j] == if i <= j < i + n then Zero else Leaf(Nth(blk, j, size), prot)
  {
    seq(c.e, j requires 0 <= j < c.e => if i <= j < i + n then Zero else Leaf(Nth(blk, j, size), prot))
  }

  lemma {:induction false} FullCount(ptes: seq<Pte>, k: nat)
    requires k <= |ptes| && AllLeaf(ptes, 0, k)
    ensures CountTo(ptes, k) == k
    decreases k
  {
    if k > 0 {
      FullCount(ptes, k - 1);
    }
  }

  lemma {:induction false} SplitCount(c: Config, blk: nat, prot: nat, size: nat, i: nat, n: nat)
    requires i + n <= c.e
    ensures Count(SplitTable(c, blk, prot, size, i, n)) == c.e - n
  {
    var full := SplitTable(c, blk, prot, size, 0, 0);
    CountMore(SplitTable(c, blk, prot, size, i, n), full, i, n, c.e);
    FullCount(full, c.e);
  }

  lemma {:induction false} PartTranslation(c: Config, blk: nat, prot: nat, l: nat, x: nat)
    requires c.e > 0 && l < LAST
    ensures EntryTranslation(c, Leaf(Nth(blk, Index(c, x, l + 1), Block(c, l + 1)), prot), l + 1, x) ==
            EntryTranslation(c, Leaf(blk, prot), l, x)
  {
    OffStep(c, x, l);
  }

  ghost predicate CanSplit(c: Config, h: Heap, a: nat, iova: nat, n: nat, t: nat) {
    && Inv(c, h) && a in h.tables && h.place[a].lvl < LAST && Covers(c, h, a, iova)
    && Index(c, iova, h.place[a].lvl) < |h.tables[a]| && h.tables[a][Index(c, iova, h.place[a].lvl)].Leaf?
    && Index(c, iova, h.place[a].lvl + 1) + n <= c.e && t in h.pool
    && (n > 0 ==> Aligned(c, iova, h.place[a].lvl + 1))
  }

  /** The table for the block that holds iova, without n parts from iova on. */
  function Parts(c: Config, h: Heap, a: nat, iova: nat, n: nat, t: nat): (r: seq<Pte>)
    requires CanSplit(c, h, a, iova, n, t)
    ensures |r| == c.e
  {
    var l := h.place[a].lvl;
    var p := h.tables[a][Index(c, iova, l)];
    SplitTable(c, p.phys, p.prot, Block(c, l + 1), Index(c, iova, l + 1), n)
  }

  /** The heap after the block that holds iova has been split. */
  function SplitOf(c: Config, h: Heap, a: nat, iova: nat, n: nat, t: nat): Heap
    requires CanSplit(c, h, a, iova, n, t)
  {
    Install(c, h, a, Index(c, iova, h.place[a].lvl), t, Parts(c, h, a, iova, n, t), PartCount(c, n))
  }

  /** The count stored for the new table. */
  function PartCount(c: Config, n: nat): nat {
    (c.e - n) % COUNTS
  }

  lemma {:induction false} SplitInstalls(c: Config, h: Heap, a: nat, iova: nat, n: nat, t: nat)
    requires CanSplit(c, h, a, iova, n, t)
    ensures CanInstall(c, h, a, Index(c, iova, h.place[a].lvl), t, Parts(c, h, a, iova, n, t), PartCount(c, n))
  {
    var l := h.place[a].lvl;
    var p := h.tables[a][Index(c, iova, l)];
    SplitCount(c, p.phys, p.prot, Block(c, l + 1), Index(c, iova, l + 1), n);
  }

  /** What the parts say about an address of the block. */
  lemma {:induction false} PartsTranslate(c: Config, h: Heap, a: nat, iova: nat, n: nat, t: nat, x: nat)
    requires CanSplit(c, h, a, iova, n, t) && Through(c, h, a, Index(c, iova, h.place[a].lvl), x)
    ensures var l := h.place[a].lvl;
            EntryTranslation(c, Parts(c, h, a, iova, n, t)[Index(c, x, l + 1)], l + 1, x) ==
            if Index(c, iova, l + 1) <= Index(c, x, l + 1) < Index(c, iova, l + 1) + n then Fault
                else Translate(c, h, x)
  {
    var l := h.place[a].lvl;
    var p := h.tables[a][Index(c, iova, l)];
    WalkReaches(c, h, a, x);
    PartTranslation(c, p.phys, p.prot, l, x);
  }

  /** Walks after the split: those through the block end in the new table. */
  lemma {:induction false} SplitWalk(c: Config, h: Heap, a: nat, iova: nat, n: nat, t: nat, x: nat)
    requires CanSplit(c, h, a, iova, n, t) && InRange(c, x)
    ensures var l := h.place[a].lvl;
            Index(c, x, l + 1) < c.e &&
            Translate(c, SplitOf(c, h, a, iova, n, t), x) ==
            if Through(c, h, a, Index(c, iova, l), x) then
              EntryTranslation(c, Parts(c, h, a, iova, n, t)[Index(c, x, l + 1)], l + 1, x)
            else Translate(c, h, x)
  {
    var i, ptes := Index(c, iova, h.place[a].lvl), Parts(c, h, a, iova, n, t);
    SplitInstalls(c, h, a, iova, n, t);
    InstallTranslates(c, h, a, i, t, ptes, PartCount(c, n), x);
  }

  lemma {:induction false} SplitTranslates(c: Config, h: Heap, a: nat, iova: nat, n: nat, t: nat, x: nat)
    requires CanSplit(c, h, a, iova, n, t) && InRange(c, x)
    ensures Translate(c, SplitOf(c, h, a, iova, n, t), x) ==
            if iova <= x < iova + Span(c, n, h.place[a].lvl + 1) then Fault else Translate(c, h, x)
  {
    SplitWalk(c, h, a, iova, n, t, x);
    SplitRange(c, h, a, iova, n, x);
    if Through(c, h, a, Index(c, iova, h.place[a].lvl), x) {
      PartsTranslate(c, h, a, iova, n, t, x);
    }
  }

  /** The addresses of the parts that are left out. */
  lemma {:induction false} SplitRange(c: Config, h: Heap, a: nat, iova: nat, n: nat, x: nat)
    requires Inv(c, h) && a in h.tables && h.place[a].lvl < LAST && Covers(c, h, a, iova)
    requires Index(c, iova, h.place[a].lvl + 1) + n <= c.e
    requires n > 0 ==> Aligned(c, iova, h.place[a].lvl + 1)
    ensures var l := h.place[a].lvl;
            iova <= x < iova + Span(c, n, l + 1) <==>
            && Through(c, h, a, Index(c, iova, l), x)
            && Index(c, iova, l + 1) <= Index(c, x, l + 1) < Index(c, iova, l + 1) + n
  {
    if n > 0 {
      var l := h.place[a].lvl;
      AlignedOff(c, iova, l + 1);
      EntryRange(c, iova, l + 1, n, x);
      if Through(c, h, a, Index(c, iova, l), x) {
        DivModUnique(Region(c, x, l), Region(c, iova, l), c.e);
      }
    }
  }

  /** Splitting a block leaves the rest of it translated as before. */
  lemma {:induction false} SplitUnmaps(c: Config, h: Heap, a: nat, iova: nat, n: nat, t: nat)
    requires CanSplit(c, h, a, iova, n, t)
    ensures Unmapped(c, h, SplitOf(c, h, a, iova, n, t), iova, Span(c, n, h.place[a].lvl + 1))
  {
    forall x: nat | InRange(c, x)
      ensures Translate(c, SplitOf(c, h, a, iova, n, t), x) ==
              if iova <= x < iova + Span(c, n, h.place[a].lvl + 1) then Fault else Translate(c, h, x)
    {
      SplitTranslates(c, h, a, iova, n, t, x);
    }
  }

  lemma {:induction false} SplitKeeps(c: Config, h: Heap, a: nat, iova: nat, n: nat, t: nat)
    requires CanSplit(c, h, a, iova, n, t)
    ensures var h' := SplitOf(c, h, a, iova, n, t);
            Inv(c, h') && SamePages(h, h') && SamePlaces(h, h') && NewAt(h, h', h.place[a].lvl + 1)
  {
    var i, ptes := Index(c, iova, h.place[a].lvl), Parts(c, h, a, iova, n, t);
    SplitInstalls(c, h, a, iova, n, t);
    InstallKeeps(c, h, a, i, t, ptes, PartCount(c, n));
  }

  // ----- clearing one entry -----------------------------------------------------------------------------

  lemma {:induction false} RewriteSameCount(c: Config, h: Heap, a: nat, ptes: seq<Pte>)
    requires Inv(c, h) && a in h.tables
    ensures Rewrite(c, h, a, ptes, CountOf(c, h, a)) == h.(tables := h.tables[a := ptes])
  {
    if a != c.root {
      assert Anchored(c, h, a);
      var p, j := h.place[a].up, h.place[a].num % c.e;
      assert h.tables[p][j := h.tables[p][j]] == h.tables[p];
      assert h.tables[p := h.tables[p]] == h.tables;
    }
  }

  /** The heap after entry i of table a has been cleared. */
  function ClearOf(h: Heap, a: nat, i: nat): Heap
    requires a in h.tables && i < |h.tables[a]|
  {
    h.(tables := h.tables[a := h.tables[a][i := Zero]])
  }

  /** Clearing a block's entry, at a level where entries are not counted. */
  lemma {:induction false} ClearLeafStep(c: Config, h: Heap, a: nat, iova: nat)
    requires Inv(c, h) && EntriesFor(c, h, a, iova, 1) && (h.place[a].lvl == LAST ==> a == c.root)
    requires h.tables[a][Index(c, iova, h.place[a].lvl)].Leaf?
    ensures var h' := ClearOf(h, a, Index(c, iova, h.place[a].lvl));
            Inv(c, h') && Unmapped(c, h, h', iova, Span(c, 1, h.place[a].lvl))
  {
    var i := Index(c, iova, h.place[a].lvl);
    CountOfBits(c, h, a);
    EraseUnmaps(c, h, a, iova, 1, CountOf(c, h, a));
    RewriteSameCount(c, h, a, Erased(h.tables[a], i, 1));
    assert Erased(h.tables[a], i, 1) == h.tables[a][i := Zero];
  }

  /** Clearing an entry that points to a table, and freeing what it points to. */
  lemma {:induction false} ClearTableStep(c: Config, h: Heap, a: nat, iova: nat)
    requires Inv(c, h) && EntriesFor(c, h, a, iova, 1)
    requires h.tables[a][Index(c, iova, h.place[a].lvl)].Table?
    ensures var p := h.tables[a][Index(c, iova, h.place[a].lvl)];
            && p.addr in h.place && p.addr in h.tables && p.addr != c.root && a !in Subtree(c, h, p.addr)
            && Subtree(c, h, p.addr) <= h.tables.Keys
            && h.place[a].lvl < LAST && h.place[p.addr].lvl == h.place[a].lvl + 1
    ensures var i := Index(c, iova, h.place[a].lvl);
            var gone := Subtree(c, h, h.tables[a][i].addr);
            var h' := Heap(ClearOf(h, a, i).tables - gone, h.place - gone, h.pool + gone);
            Inv(c, h') && Unmapped(c, h, h', iova, Span(c, 1, h.place[a].lvl))
  {
    var i := Index(c, iova, h.place[a].lvl);
    assert EntryFits(c, h, a, i);
    BelowTable(c, h, a, i);
    PruneUnmaps(c, h, a, iova);
  }
}
