/** Unmapping pages: what becomes of a last-level table and of the count of its entries, exactly when
    that is what was asked for, and when a table without entries is left behind. */
module LpaeLast {
  import opened Arith
  import opened LpaeTree
  import opened LpaeUpdate
  import opened LpaeSpec
  import opened LpaeUnmap

  // ----- pages in a last-level table --------------------------------------------------------------------

  ghost predicate RangeMapped(c: Config, h: Heap, iova: nat, n: nat)
    requires c.e > 0 && c.s <= LAST
  {
    forall x: nat :: iova <= x < iova + n ==> InRange(c, x) && Translate(c, h, x) != Fault
  }

  lemma {:induction false} MappedRun(c: Config, h: Heap, t: nat, iova: nat, n: nat)
    requires Inv(c, h) && t in h.tables && h.place[t].lvl == LAST && Covers(c, h, t, iova)
    requires Index(c, iova, LAST) + n <= |h.tables[t]| && RangeMapped(c, h, iova, n)
    ensures AllLeaf(h.tables[t], Index(c, iova, LAST), n)
  {
    forall k | Index(c, iova, LAST) <= k < Index(c, iova, LAST) + n
      ensures h.tables[t][k].Leaf?
    {
      MappedMeansLeaf(c, h, t, iova, k - Index(c, iova, LAST));
    }
  }

  ghost predicate RangeClear(c: Config, h: Heap, iova: nat, n: nat)
    requires c.e > 0 && c.s <= LAST
  {
    forall x: nat :: iova <= x < iova + n ==> InRange(c, x) && Translate(c, h, x) == Fault
  }

  /** Which entries of a last-level table are in use says which of its pages are mapped. */
  lemma {:induction false} LeafIsMapped(c: Config, h: Heap, t: nat, iova: nat, j: nat)
    requires Inv(c, h) && t in h.tables && h.place[t].lvl == LAST && Covers(c, h, t, iova)
    requires Index(c, iova, LAST) + j < |h.tables[t]|
    ensures Covers(c, h, t, iova + j) && InRange(c, iova + j)
    ensures !h.tables[t][Index(c, iova, LAST) + j].Table?
    ensures Translate(c, h, iova + j) != Fault <==> h.tables[t][Index(c, iova, LAST) + j].Leaf?
  {
    assert |h.tables[t]| <= c.e;
    NextEntry(c, h, t, iova, j);
    assert Span(c, j, LAST) == j;
    CoversInRange(c, h, t, iova + j);
    WalkReaches(c, h, t, iova + j);
    assert EntryFits(c, h, t, Index(c, iova, LAST) + j);
  }

  lemma {:induction false} RangeIsEntries(c: Config, h: Heap, t: nat, iova: nat, n: nat)
    requires Inv(c, h) && t in h.tables && h.place[t].lvl == LAST && Covers(c, h, t, iova)
    requires Index(c, iova, LAST) + n <= |h.tables[t]|
    ensures RangeMapped(c, h, iova, n) <==> AllLeaf(h.tables[t], Index(c, iova, LAST), n)
    ensures RangeClear(c, h, iova, n) <==> AllZero(h.tables[t], Index(c, iova, LAST), n)
  {
    var i := Index(c, iova, LAST);
    forall k | i <= k < i + n
      ensures !h.tables[t][k].Table? && (Translate(c, h, iova + (k - i)) != Fault <==> h.tables[t][k].Leaf?)
    {
      LeafIsMapped(c, h, t, iova, k - i);
    }
    forall x: nat | iova <= x < iova + n
      ensures InRange(c, x) && (Translate(c, h, x) != Fault <==> h.tables[t][i + (x - iova)].Leaf?)
    {
      LeafIsMapped(c, h, t, iova, x - iova);
    }
  }

  lemma {:induction false} ErasedNext(ptes: seq<Pte>, i: nat, k: nat)
    requires i + k < |ptes|
    ensures Erased(ptes, i, k + 1) == Erased(ptes, i, k)[i + k := Zero]
  {
  }

  /** The heap after n pages of table t are gone, and the table too if they were its last. */
  function UnmapLastOf(c: Config, h: Heap, a: nat, i: nat, t: nat, k: nat, n: nat): Heap
    requires Inv(c, h) && t in h.tables && k + n <= |h.tables[t]| && a in h.tables && i < |h.tables[a]|
  {
    var h1 := EraseOf(c, h, t, k, n);
    if (CountOf(c, h, t) - n) % COUNTS == 0 && i < |h1.tables[a]|
    then Heap(h1.tables[a := h1.tables[a][i := Zero]] - {t}, h1.place - {t}, h1.pool + {t})
    else h1
  }

  lemma {:induction false} LastFacts(c: Config, h: Heap, a: nat, t: nat, iova: nat, n: nat)
    requires Inv(c, h) && a in h.tables && h.place[a].lvl == LAST - 1 && Covers(c, h, a, iova)
    requires Index(c, iova, LAST - 1) < |h.tables[a]|
    requires h.tables[a][Index(c, iova, LAST - 1)].Table? && h.tables[a][Index(c, iova, LAST - 1)].addr == t
    requires Index(c, iova, LAST) + n <= c.e && RangeMapped(c, h, iova, n)
    ensures t in h.tables && t in h.place && |h.tables[t]| == c.e && h.place[t].lvl == LAST && t != c.root && t != a
    ensures EntriesFor(c, h, t, iova, n) && AllLeaf(h.tables[t], Index(c, iova, LAST), n)
  {
    ChildCovers(c, h, a, iova);
    ChildPrev(c, h, a, Index(c, iova, LAST - 1));
    MappedRun(c, h, t, iova, n);
  }

  /** If the pages were the table's last, freeing it changes no translation. */
  lemma {:induction false} FreeAfterErase(c: Config, h: Heap, a: nat, i: nat, t: nat, k: nat, n: nat)
    requires Inv(c, h) && a in h.tables && h.place[a].lvl == LAST - 1 && i < |h.tables[a]| && i < c.e
    requires h.tables[a][i].Table? && h.tables[a][i].addr == t && t in h.tables && t != a && k + n <= |h.tables[t]|
    requires Inv(c, EraseOf(c, h, t, k, n)) && AllZero(Erased(h.tables[t], k, n), 0, c.e)
    requires (CountOf(c, h, t) - n) % COUNTS == 0
    ensures var h' := UnmapLastOf(c, h, a, i, t, k, n);
            Inv(c, h') && SameMap(c, EraseOf(c, h, t, k, n), h') && SamePages(h, h') && t !in h'.tables
  {
    EraseKeepsParent(c, h, a, i, t, k, n);
    FreeEmptyTable(c, EraseOf(c, h, t, k, n), a, i, t);
  }

  lemma {:induction false} UnmappedThenSame(c: Config, h: Heap, h1: Heap, h2: Heap, iova: nat, len: nat)
    requires c.e > 0 && c.s <= LAST && Unmapped(c, h, h1, iova, len) && SameMap(c, h1, h2)
    ensures Unmapped(c, h, h2, iova, len)
  {
  }

  /** The entry of table a for iova points to the last-level table t, which has n entries from there. */
  ghost predicate LastAt(c: Config, h: Heap, a: nat, t: nat, iova: nat, n: nat) {
    && Inv(c, h) && a in h.tables && h.place[a].lvl == LAST - 1 && Covers(c, h, a, iova) && n > 0
    && Index(c, iova, LAST - 1) < |h.tables[a]|
    && h.tables[a][Index(c, iova, LAST - 1)].Table? && h.tables[a][Index(c, iova, LAST - 1)].addr == t
    && Index(c, iova, LAST) + n <= c.e
  }

  /** And n pages are mapped there. */
  ghost predicate LastRun(c: Config, h: Heap, a: nat, t: nat, iova: nat, n: nat) {
    LastAt(c, h, a, t, iova, n) && RangeMapped(c, h, iova, n)
  }

  lemma {:induction false} LastAtFacts(c: Config, h: Heap, a: nat, t: nat, iova: nat, n: nat)
    requires LastAt(c, h, a, t, iova, n)
    ensures t in h.tables && t in h.place && |h.tables[t]| == c.e && h.place[t].lvl == LAST && t != c.root && t != a
    ensures Covers(c, h, t, iova) && EntriesFor(c, h, t, iova, n) && NoTables(h.tables[t])
    ensures CountOf(c, h, t) == Count(h.tables[t]) % COUNTS
  {
    ChildCovers(c, h, a, iova);
    ChildPrev(c, h, a, Index(c, iova, LAST - 1));
    CountOfLast(c, h, t);
    forall j | 0 <= j < |h.tables[t]|
      ensures !h.tables[t][j].Table?
    {
      assert EntryFits(c, h, t, j);
    }
  }

  lemma {:induction false} LastErases(c: Config, h: Heap, a: nat, t: nat, iova: nat, n: nat)
    requires LastRun(c, h, a, t, iova, n)
    ensures t in h.tables && |h.tables[t]| == c.e && t != a
    ensures var h1 := EraseOf(c, h, t, Index(c, iova, LAST), n); Inv(c, h1) && Unmapped(c, h, h1, iova, n)
  {
    LastFacts(c, h, a, t, iova, n);
    EraseStep(c, h, t, iova, n);
    assert Span(c, n, LAST) == n;
  }

  lemma {:induction false} LastCounts(c: Config, h: Heap, a: nat, t: nat, iova: nat, n: nat)
    requires LastRun(c, h, a, t, iova, n)
    ensures t in h.tables && |h.tables[t]| == c.e
    ensures (CountOf(c, h, t) - n) % COUNTS == 0 <==> AllZero(Erased(h.tables[t], Index(c, iova, LAST), n), 0, c.e)
  {
    LastFacts(c, h, a, t, iova, n);
    LastEntryGoes(c, h, t, Index(c, iova, LAST), n);
  }

  lemma {:induction false} LastFrees(c: Config, h: Heap, a: nat, t: nat, iova: nat, n: nat)
    requires LastRun(c, h, a, t, iova, n) && t in h.tables && (CountOf(c, h, t) - n) % COUNTS == 0
    requires |h.tables[t]| == c.e
    ensures var h' := UnmapLastOf(c, h, a, Index(c, iova, LAST - 1), t, Index(c, iova, LAST), n);
            Inv(c, h') && Unmapped(c, h, h', iova, n) && SamePages(h, h') && t !in h'.tables
  {
    var i, k := Index(c, iova, LAST - 1), Index(c, iova, LAST);
    LastErases(c, h, a, t, iova, n);
    LastCounts(c, h, a, t, iova, n);
    FreeAfterErase(c, h, a, i, t, k, n);
    UnmappedThenSame(c, h, EraseOf(c, h, t, k, n), UnmapLastOf(c, h, a, i, t, k, n), iova, n);
  }

  lemma {:induction false} LastStays(c: Config, h: Heap, a: nat, t: nat, iova: nat, n: nat)
    requires LastRun(c, h, a, t, iova, n) && t in h.tables && (CountOf(c, h, t) - n) % COUNTS != 0
    requires |h.tables[t]| == c.e
    ensures var h' := UnmapLastOf(c, h, a, Index(c, iova, LAST - 1), t, Index(c, iova, LAST), n);
            Inv(c, h') && Unmapped(c, h, h', iova, n) && SamePages(h, h') && t in h'.tables
  {
    LastErases(c, h, a, t, iova, n);
    var h1 := EraseOf(c, h, t, Index(c, iova, LAST), n);
    assert UnmapLastOf(c, h, a, Index(c, iova, LAST - 1), t, Index(c, iova, LAST), n) == h1;
    assert SamePages(h, h1);
  }

  lemma {:induction false} UnmapLastStep(c: Config, h: Heap, a: nat, t: nat, iova: nat, n: nat)
    requires LastRun(c, h, a, t, iova, n)
    ensures t in h.tables && |h.tables[t]| == c.e
    ensures var h' := UnmapLastOf(c, h, a, Index(c, iova, LAST - 1), t, Index(c, iova, LAST), n);
            && Inv(c, h') && Unmapped(c, h, h', iova, n) && SamePages(h, h')
            && (t !in h'.tables <==> AllZero(Erased(h.tables[t], Index(c, iova, LAST), n), 0, c.e))
  {
    LastCounts(c, h, a, t, iova, n);
    if (CountOf(c, h, t) - n) % COUNTS == 0 {
      LastFrees(c, h, a, t, iova, n);
    } else {
      LastStays(c, h, a, t, iova, n);
    }
  }

  lemma {:induction false} EraseKeepsParent(c: Config, h: Heap, a: nat, i: nat, t: nat, k: nat, n: nat)
    requires Inv(c, h) && a in h.tables && i < |h.tables[a]| && h.tables[a][i].Table? && h.tables[a][i].addr == t
    requires t in h.tables && k + n <= |h.tables[t]| && t != a
    ensures var h1 := EraseOf(c, h, t, k, n);
            && h1.tables[t] == Erased(h.tables[t], k, n) && |h1.tables[a]| == |h.tables[a]|
            && h1.tables[a][i].Table? && h1.tables[a][i].addr == t
            && h1.tables[a][i].count == (CountOf(c, h, t) - n) % COUNTS
  {
    ChildPrev(c, h, a, i);
    RewriteAt(c, h, t, Erased(h.tables[t], k, n), (CountOf(c, h, t) - n) % COUNTS, t);
    RewriteAt(c, h, t, Erased(h.tables[t], k, n), (CountOf(c, h, t) - n) % COUNTS, a);
  }

  // ----- exactly when the right pages are unmapped --------------------------------------------------------

  /** The pages asked for are all mapped, or they are all 8192 pages of the table and none is. */
  ghost predicate CountsOut(c: Config, h: Heap, iova: nat, n: nat)
    requires c.e > 0 && c.s <= LAST
  {
    RangeMapped(c, h, iova, n) || (n == COUNTS && RangeClear(c, h, iova, n))
  }

  /** Unmapping all pages of an empty table frees it. */
  lemma {:induction false} EmptyTableGoes(c: Config, h: Heap, a: nat, t: nat, iova: nat, n: nat)
    requires LastAt(c, h, a, t, iova, n) && n == COUNTS && RangeClear(c, h, iova, n)
    ensures t in h.tables && |h.tables[t]| == c.e && Index(c, iova, LAST) == 0
    ensures var h' := UnmapLastOf(c, h, a, Index(c, iova, LAST - 1), t, Index(c, iova, LAST), n);
            Inv(c, h') && Unmapped(c, h, h', iova, n) && SamePages(h, h') && t !in h'.tables
    ensures AllZero(Erased(h.tables[t], 0, n), 0, c.e)
  {
    LastAtFacts(c, h, a, t, iova, n);
    RangeIsEntries(c, h, t, iova, n);
    assert Erased(h.tables[t], 0, n) == h.tables[t];
    ZeroCount(h.tables[t], c.e);
    RewriteSameCount(c, h, t, h.tables[t]);
    assert h.tables[t := h.tables[t]] == h.tables;
    assert EraseOf(c, h, t, 0, n) == h;
    FreeAfterErase(c, h, a, Index(c, iova, LAST - 1), t, 0, n);
    SameThenUnmapped(c, h, UnmapLastOf(c, h, a, Index(c, iova, LAST - 1), t, 0, n), iova, n);
  }

  lemma {:induction false} SameThenUnmapped(c: Config, h: Heap, h': Heap, iova: nat, n: nat)
    requires c.e > 0 && c.s <= LAST && SameMap(c, h, h') && RangeClear(c, h, iova, n)
    ensures Unmapped(c, h, h', iova, n)
  {
  }

  /** A count that is wrong and not zero stays in the descriptor. */
  lemma {:induction false} WrongCountStays(c: Config, h: Heap, a: nat, t: nat, iova: nat, n: nat)
    requires LastAt(c, h, a, t, iova, n) && t in h.tables && |h.tables[t]| == c.e
    requires (CountOf(c, h, t) - n) % COUNTS != 0
    requires (CountOf(c, h, t) - n) % COUNTS != Count(Erased(h.tables[t], Index(c, iova, LAST), n)) % COUNTS
    ensures !Inv(c, UnmapLastOf(c, h, a, Index(c, iova, LAST - 1), t, Index(c, iova, LAST), n))
  {
    var i, k := Index(c, iova, LAST - 1), Index(c, iova, LAST);
    LastAtFacts(c, h, a, t, iova, n);
    EraseKeepsParent(c, h, a, i, t, k, n);
    var h' := EraseOf(c, h, t, k, n);
    assert UnmapLastOf(c, h, a, i, t, k, n) == h';
    assert !EntryFits(c, h', a, i);
  }

  lemma {:induction false} SomeEntryUsed(ptes: seq<Pte>, k: nat) returns (j: nat)
    requires k <= |ptes| && CountTo(ptes, k) > 0
    ensures j < k && !ptes[j].Zero?
    decreases k
  {
    if !ptes[k - 1].Zero? {
      j := k - 1;
    } else {
      j := SomeEntryUsed(ptes, k - 1);
    }
  }

  /** The address of entry j of a last-level table. */
  lemma {:induction false} AddressOfEntry(c: Config, h: Heap, t: nat, iova: nat, j: nat) returns (y: nat)
    requires Inv(c, h) && t in h.tables && t != c.root && h.place[t].lvl == LAST && Covers(c, h, t, iova) && j < c.e
    ensures Covers(c, h, t, y) && Index(c, y, LAST) == j && y - iova == j - Index(c, iova, LAST)
    ensures y / c.e == iova / c.e
  {
    SplitMod(iova, c.e);
    y := iova / c.e * c.e + j;
    DivMod(y, c.e, iova / c.e, j);
  }

  /** If the table is freed while entries are in use, their pages are lost. */
  lemma {:induction false} OtherPagesLost(c: Config, h: Heap, a: nat, t: nat, iova: nat, n: nat)
    requires LastAt(c, h, a, t, iova, n) && t in h.tables && |h.tables[t]| == c.e
    requires (CountOf(c, h, t) - n) % COUNTS == 0
    requires Count(Erased(h.tables[t], Index(c, iova, LAST), n)) > 0
    ensures var h' := UnmapLastOf(c, h, a, Index(c, iova, LAST - 1), t, Index(c, iova, LAST), n);
            !(Inv(c, h') && Unmapped(c, h, h', iova, n))
  {
    var i, k := Index(c, iova, LAST - 1), Index(c, iova, LAST);
    var h' := UnmapLastOf(c, h, a, i, t, k, n);
    LastAtFacts(c, h, a, t, iova, n);
    EraseKeepsParent(c, h, a, i, t, k, n);
    var j := SomeEntryUsed(Erased(h.tables[t], k, n), c.e);
    var y := AddressOfEntry(c, h, t, iova, j);
    LeafIsMapped(c, h, t, y, 0);
    if Inv(c, h') {
      ParentCovers(c, h, t, y);
      ParentCovers(c, h, t, iova);
      assert Covers(c, h', a, y) && Index(c, y, LAST - 1) == i;
      ZeroFaults(c, h', a, y);
    }
  }

  /** The tables are in order and exactly the pages asked for are unmapped if and only if these were
      all mapped, or all 8192 pages of the table and none was. */
  lemma {:induction false} UnmapLastExact(c: Config, h: Heap, a: nat, t: nat, iova: nat, n: nat)
    requires LastAt(c, h, a, t, iova, n)
    ensures t in h.tables && |h.tables[t]| == c.e
    ensures var h' := UnmapLastOf(c, h, a, Index(c, iova, LAST - 1), t, Index(c, iova, LAST), n);
            && (Inv(c, h') && Unmapped(c, h, h', iova, n) <==> CountsOut(c, h, iova, n))
            && (CountsOut(c, h, iova, n) ==>
                  && SamePages(h, h')
                  && (t !in h'.tables <==> AllZero(Erased(h.tables[t], Index(c, iova, LAST), n), 0, c.e)))
  {
    LastAtFacts(c, h, a, t, iova, n);
    if RangeMapped(c, h, iova, n) {
      UnmapLastStep(c, h, a, t, iova, n);
    } else if n == COUNTS && RangeClear(c, h, iova, n) {
      EmptyTableGoes(c, h, a, t, iova, n);
    } else {
      NotCountedOut(c, h, a, t, iova, n);
    }
  }

  lemma {:induction false} NotCountedOut(c: Config, h: Heap, a: nat, t: nat, iova: nat, n: nat)
    requires LastAt(c, h, a, t, iova, n) && !CountsOut(c, h, iova, n)
    ensures t in h.tables && |h.tables[t]| == c.e
    ensures var h' := UnmapLastOf(c, h, a, Index(c, iova, LAST - 1), t, Index(c, iova, LAST), n);
            !(Inv(c, h') && Unmapped(c, h, h', iova, n))
  {
    LastAtFacts(c, h, a, t, iova, n);
    RangeIsEntries(c, h, t, iova, n);
    CountStaysRight(h.tables[t], Index(c, iova, LAST), n);
    if (CountOf(c, h, t) - n) % COUNTS == 0 {
      OtherPagesLost(c, h, a, t, iova, n);
    } else {
      WrongCountStays(c, h, a, t, iova, n);
    }
  }

  /** Table t is the last-level table for iova, below another table. */
  ghost predicate LastTable(c: Config, h: Heap, t: nat, iova: nat)
    requires c.e > 0
  {
    t in h.place && t != c.root && h.place[t].lvl == LAST && Covers(c, h, t, iova)
  }

  /** Of the pages asked for, those that lie in the last-level table for iova count out right, or
      there is no such table: the condition for unmapping pages. */
  ghost predicate SafeToUnmap(c: Config, h: Heap, iova: nat, pgcount: nat)
    requires c.e > 0 && c.s <= LAST
  {
    forall t :: LastTable(c, h, t, iova) ==> CountsOut(c, h, iova, Min(pgcount, c.e - Index(c, iova, LAST)))
  }

  /** There is no such table if an entry on the way points to none. */
  lemma {:induction false} NoLastTable(c: Config, h: Heap, a: nat, iova: nat, t: nat)
    requires Inv(c, h) && a in h.tables && Covers(c, h, a, iova) && Index(c, iova, h.place[a].lvl) < |h.tables[a]|
    requires !h.tables[a][Index(c, iova, h.place[a].lvl)].Table? && (h.place[a].lvl == LAST ==> a == c.root)
    ensures !LastTable(c, h, t, iova)
  {
    if t in h.place && Covers(c, h, t, iova) {
      NoTableBelow(c, h, a, iova, t);
    }
  }

  lemma {:induction false} SafeWithoutTable(c: Config, h: Heap, a: nat, iova: nat, pgcount: nat)
    requires Inv(c, h) && a in h.tables && Covers(c, h, a, iova) && Index(c, iova, h.place[a].lvl) < |h.tables[a]|
    requires !h.tables[a][Index(c, iova, h.place[a].lvl)].Table? && (h.place[a].lvl == LAST ==> a == c.root)
    ensures SafeToUnmap(c, h, iova, pgcount) && !exists t :: LastTable(c, h, t, iova)
  {
    forall t
      ensures !LastTable(c, h, t, iova)
    {
      NoLastTable(c, h, a, iova, t);
    }
  }

  // ----- when a table without entries is left ------------------------------------------------------------

  /** The request takes a whole block away that is mapped as one, page by page. */
  ghost predicate SplitsWhole(c: Config, h: Heap, iova: nat, k: nat, pgcount: nat)
    requires c.e > 0 && c.s <= LAST
  {
    && c.s < LAST && k == LAST && Index(c, iova, LAST) == 0 && pgcount >= c.e
    && InRange(c, iova) && Translate(c, h, iova) != Fault && !exists t :: LastTable(c, h, t, iova)
  }

  /** Clearing an entry above the last level, with or without what is below it. */
  lemma {:induction false} ClearNoNewEmpty(c: Config, h: Heap, h': Heap, a: nat)
    requires h'.tables.Keys <= h.tables.Keys && a in h.place && (h.place[a].lvl == LAST ==> a == c.root)
    requires forall b :: b in h'.tables && b != a ==> h'.tables[b] == h.tables[b]
    requires forall b :: b in h'.place ==> b in h.place && h'.place[b] == h.place[b]
    ensures NoNewEmpty(c, h, h')
  {
  }

  /** Unmapping pages leaves no empty table: a table that loses its last entry goes. */
  lemma {:induction false} UnmapLastNoNewEmpty(c: Config, h: Heap, a: nat, t: nat, iova: nat, n: nat)
    requires LastAt(c, h, a, t, iova, n) && CountsOut(c, h, iova, n)
    ensures t in h.tables && |h.tables[t]| == c.e
    ensures NoNewEmpty(c, h, UnmapLastOf(c, h, a, Index(c, iova, LAST - 1), t, Index(c, iova, LAST), n))
  {
    var i, k := Index(c, iova, LAST - 1), Index(c, iova, LAST);
    LastAtFacts(c, h, a, t, iova, n);
    UnmapLastExact(c, h, a, t, iova, n);
    EraseKeepsParent(c, h, a, i, t, k, n);
    var h1, h' := EraseOf(c, h, t, k, n), UnmapLastOf(c, h, a, i, t, k, n);
    forall b | EmptyLast(c, h', b)
      ensures EmptyLast(c, h, b)
    {
      assert b != a && EmptyLast(c, h1, b);
      RewriteEmpty(c, h, t, Erased(h.tables[t], k, n), (CountOf(c, h, t) - n) % COUNTS, b);
    }
  }

  /** Splitting a block leaves a table without entries exactly if it is of the last level and nothing
      of the block is kept. */
  lemma {:induction false} SplitEmpty(c: Config, h: Heap, a: nat, iova: nat, n: nat, t: nat)
    requires CanSplit(c, h, a, iova, n, t)
    ensures forall b :: b != t ==> (EmptyLast(c, SplitOf(c, h, a, iova, n, t), b) <==> EmptyLast(c, h, b))
    ensures EmptyLast(c, SplitOf(c, h, a, iova, n, t), t) <==> h.place[a].lvl + 1 == LAST && n == c.e
    ensures !EmptyLast(c, h, t)
  {
    var i, ptes := Index(c, iova, h.place[a].lvl), Parts(c, h, a, iova, n, t);
    var h' := SplitOf(c, h, a, iova, n, t);
    SplitInstalls(c, h, a, iova, n, t);
    forall b | b != t && EmptyLast(c, h', b)
      ensures EmptyLast(c, h, b)
    {
      InstallEmptyOnly(c, h, a, i, t, ptes, PartCount(c, n), b);
    }
    PartsEmpty(c, h, a, iova, n, t);
  }

  lemma {:induction false} PartsEmpty(c: Config, h: Heap, a: nat, iova: nat, n: nat, t: nat)
    requires CanSplit(c, h, a, iova, n, t)
    ensures AllZero(Parts(c, h, a, iova, n, t), 0, c.e) <==> n == c.e
  {
    var i, ptes := Index(c, iova, h.place[a].lvl + 1), Parts(c, h, a, iova, n, t);
    if n < c.e {
      var j := if i > 0 then 0 else n;
      assert ptes[j].Leaf?;
    }
  }

  /** For instance: splitting out all pages of a block of the level above leaves the new table behind,
      empty; a block can then not be mapped there, although no address of it is mapped. */
  lemma {:induction false} WholeSplitLeavesTable(c: Config, h: Heap, a: nat, iova: nat, t: nat)
    requires CanSplit(c, h, a, iova, c.e, t) && h.place[a].lvl == LAST - 1
    ensures var h' := SplitOf(c, h, a, iova, c.e, t);
            && EmptyLast(c, h', t) && t !in h'.pool
            && InTheWay(c, h', iova, Span(c, c.e, LAST), LAST - 1) && RangeClear(c, h', iova, Span(c, c.e, LAST))
  {
    var h' := SplitOf(c, h, a, iova, c.e, t);
    SplitEmpty(c, h, a, iova, c.e, t);
    SplitKeeps(c, h, a, iova, c.e, t);
    SplitInstalls(c, h, a, iova, c.e, t);
    InstallCovers(c, h, a, Index(c, iova, LAST - 1), t, Parts(c, h, a, iova, c.e, t), PartCount(c, c.e), iova);
    assert Span(c, c.e, LAST) == c.e;
    RangeIsEntries(c, h', t, iova, c.e);
    CoversInRange(c, h', t, iova);
    assert TableAt(c, h', LAST - 1, iova, t);
    assert InUse(c, h', LAST - 1, iova);
  }

  lemma {:induction false} TableHasPage(c: Config, h: Heap, t: nat, x: nat) returns (y: nat)
    requires Inv(c, h) && t in h.tables && t != c.root && h.place[t].lvl == LAST && Covers(c, h, t, x)
    requires !EmptyLast(c, h, t)
    ensures y / c.e == x / c.e && InRange(c, y) && Translate(c, h, y) != Fault
  {
    var j :| 0 <= j < |h.tables[t]| && !h.tables[t][j].Zero?;
    y := AddressOfEntry(c, h, t, x, j);
    LeafIsMapped(c, h, t, y, 0);
  }

  /** Pages of one last-level table belong to the same block of the level above. */
  lemma {:induction false} SameBlock(c: Config, iova: nat, n: nat, x: nat, y: nat)
    requires c.e > 0 && Aligned(c, iova, LAST - 1) && y / c.e == x / c.e && iova <= x < iova + Span(c, n, LAST - 1)
    ensures iova <= y < iova + Span(c, n, LAST - 1)
  {
    assert Region(c, x, LAST) == x && Region(c, y, LAST) == y;
    AlignedOff(c, iova, LAST - 1);
    RegionRange(c, iova, LAST - 1, n, x);
    RegionRange(c, iova, LAST - 1, n, y);
  }

  /** Without empty tables, a block that cannot be mapped because something is in the way has a page of
      it mapped. */
  lemma {:induction false} WayMeansMapped(c: Config, h: Heap, iova: nat, n: nat) returns (y: nat)
    requires Inv(c, h) && c.s < LAST && NoneEmpty(c, h) && Aligned(c, iova, LAST - 1)
    requires InTheWay(c, h, iova, Span(c, n, LAST - 1), LAST - 1)
    ensures iova <= y < iova + Span(c, n, LAST - 1) && InRange(c, y) && Translate(c, h, y) != Fault
  {
    var x :| iova <= x < iova + Span(c, n, LAST - 1) && InUse(c, h, LAST - 1, x);
    if Translate(c, h, x) != Fault {
      y := x;
    } else {
      var t :| TableAt(c, h, LAST - 1, x, t);
      y := TableHasPage(c, h, t, x);
      SameBlock(c, iova, n, x, y);
    }
  }

  /** A new table above the last level does not matter. */
  lemma {:induction false} SplitAbove(c: Config, h: Heap, h': Heap, iova: nat, l: nat, k: nat, pgcount: nat)
    requires c.e > 0 && c.s <= LAST && l < LAST && SamePlaces(h, h') && NewAt(h, h', l)
    requires Unmapped(c, h, h', iova, Span(c, 0, l))
    ensures SplitsWhole(c, h', iova, k, pgcount) <==> SplitsWhole(c, h, iova, k, pgcount)
    ensures SafeToUnmap(c, h, iova, pgcount) ==> SafeToUnmap(c, h', iova, pgcount)
  {
    assert Span(c, 0, l) == 0;
    forall t
      ensures LastTable(c, h', t, iova) <==> LastTable(c, h, t, iova)
    {
    }
    var n := Min(pgcount, c.e - Index(c, iova, LAST));
    if CountsOut(c, h, iova, n) {
      UnmapNothing(c, h, h', iova, l, n);
    }
  }

  lemma {:induction false} UnmapNothing(c: Config, h: Heap, h': Heap, iova: nat, l: nat, n: nat)
    requires c.e > 0 && c.s <= LAST && l <= LAST && Unmapped(c, h, h', iova, Span(c, 0, l)) && CountsOut(c, h, iova, n)
    ensures CountsOut(c, h', iova, n)
  {
    assert Span(c, 0, l) == 0;
    if RangeMapped(c, h, iova, n) {
      assert RangeMapped(c, h', iova, n);
    } else {
      assert RangeClear(c, h', iova, n);
    }
  }

  lemma {:induction false} UnmappedAfterNothing(c: Config, h: Heap, h1: Heap, h2: Heap, iova: nat, l: nat, len: nat)
    requires c.e > 0 && c.s <= LAST && l <= LAST && Unmapped(c, h, h1, iova, Span(c, 0, l))
    requires Unmapped(c, h1, h2, iova, len)
    ensures Unmapped(c, h, h2, iova, len)
  {
  }

  lemma {:induction false} SplitTableNext(
    c: Config, blk: nat, prot: nat, size: nat, i: nat, n: nat, s: seq<Pte>, k: nat)
    requires k < c.e && |s| == c.e
    requires forall j :: 0 <= j < c.e ==> s[j] == if j < k then SplitTable(c, blk, prot, size, i, n)[j] else Zero
    ensures var s' := if i <= k < i + n then s else s[k := Leaf(Nth(blk, k, size), prot)];
            forall j :: 0 <= j < c.e ==> s'[j] == if j < k + 1 then SplitTable(c, blk, prot, size, i, n)[j] else Zero
  {
  }

  // ----- the outcome ------------------------------------------------------------------------------------

  /** Exactly n blocks of level k are unmapped.  They are as many as were asked for in one table,
      unless an address is met that is not mapped, or no page is left for splitting a block.  A
      last-level table is left empty exactly if the request takes away a whole block. */
  ghost predicate UnmapOutcome(c: Config, h: Heap, h': Heap, l: nat, iova: nat, k: nat, pgcount: nat, n: nat) {
    && Inv(c, h) && Inv(c, h') && SamePages(h, h') && l <= k <= LAST
    && n <= Min(pgcount, c.e - Index(c, iova, k))
    && Unmapped(c, h, h', iova, Span(c, n, k))
    && (n < Min(pgcount, c.e - Index(c, iova, k)) ==>
          NotMapped(c, h, iova + Span(c, n, k)) || |h.pool| < LAST - l)
    && (NoNewEmpty(c, h, h') <==> !(SplitsWhole(c, h, iova, k, pgcount) && n > 0))
  }

  /** Under the condition for unmapping pages that is the outcome; otherwise the tables are not in
      order afterwards, or other pages than those asked for are unmapped. */
  ghost predicate UnmapResult(c: Config, h: Heap, h': Heap, l: nat, iova: nat, k: nat, pgcount: nat, n: nat) {
    && Inv(c, h) && l <= k <= LAST
    && if k < LAST || SafeToUnmap(c, h, iova, pgcount) then UnmapOutcome(c, h, h', l, iova, k, pgcount, n)
       else n == Min(pgcount, c.e - Index(c, iova, LAST)) && !(Inv(c, h') && Unmapped(c, h, h', iova, n))
  }

  ghost predicate NotMapped(c: Config, h: Heap, x: nat)
    requires c.e > 0 && c.s <= LAST
  {
    InRange(c, x) && Translate(c, h, x) == Fault
  }

  lemma {:induction false} SplitLeads(c: Config, h: Heap, a: nat, iova: nat, t: nat)
    requires CanSplit(c, h, a, iova, 0, t)
    ensures var h' := SplitOf(c, h, a, iova, 0, t);
            && t in h'.tables && t in h'.place && h'.place[t].lvl == h.place[a].lvl + 1 && Covers(c, h', t, iova)
            && t != c.root && |h'.pool| == |h.pool| - 1
  {
    SplitInstalls(c, h, a, iova, 0, t);
    InstallCovers(c, h, a, Index(c, iova, h.place[a].lvl), t, Parts(c, h, a, iova, 0, t), (c.e - 0) % COUNTS, iova);
  }

  ghost predicate SameEmpty(c: Config, h: Heap, h': Heap) {
    forall t :: EmptyLast(c, h', t) <==> EmptyLast(c, h, t)
  }

  lemma {:induction false} EmptyThrough(c: Config, h: Heap, h1: Heap, h2: Heap)
    requires SameEmpty(c, h, h1)
    ensures NoNewEmpty(c, h, h2) <==> NoNewEmpty(c, h1, h2)
  {
  }

  lemma {:induction false} NotMappedThrough(c: Config, h: Heap, h1: Heap, iova: nat, l: nat, x: nat)
    requires c.e > 0 && c.s <= LAST && l <= LAST && Unmapped(c, h, h1, iova, Span(c, 0, l))
    ensures NotMapped(c, h1, x) <==> NotMapped(c, h, x)
  {
    assert Span(c, 0, l) == 0;
  }

  lemma {:induction false} OutcomeAfterSplit(
    c: Config, h: Heap, h1: Heap, h2: Heap, l: nat, iova: nat, k: nat, pgcount: nat, n: nat)
    requires Inv(c, h) && SamePages(h, h1) && l + 1 < k && UnmapOutcome(c, h1, h2, l + 1, iova, k, pgcount, n)
    requires Unmapped(c, h, h1, iova, Span(c, 0, l + 1)) && |h1.pool| == |h.pool| - 1
    requires SamePlaces(h, h1) && NewAt(h, h1, l + 1) && SameEmpty(c, h, h1)
    ensures UnmapOutcome(c, h, h2, l, iova, k, pgcount, n)
  {
    UnmappedAfterNothing(c, h, h1, h2, iova, l + 1, Span(c, n, k));
    SplitAbove(c, h, h1, iova, l + 1, k, pgcount);
    EmptyThrough(c, h, h1, h2);
    NotMappedThrough(c, h, h1, iova, l + 1, iova + Span(c, n, k));
  }

  lemma {:induction false} OutcomeNothing(c: Config, h: Heap, l: nat, iova: nat, k: nat, pgcount: nat)
    requires Inv(c, h) && l <= k <= LAST && (NotMapped(c, h, iova) || |h.pool| < LAST - l)
    ensures UnmapOutcome(c, h, h, l, iova, k, pgcount, 0)
  {
    assert Span(c, 0, k) == 0;
  }

  // ----- unmapping pages that are not mapped --------------------------------------------------------------

  /** How many of the n entries from i on are in use. */
  function Used(ptes: seq<Pte>, i: nat, n: nat): (r: nat)
    requires i + n <= |ptes|
    ensures r <= n
  {
    if n == 0 then 0 else Used(ptes, i, n - 1) + if ptes[i + n - 1].Zero? then 0 else 1
  }

  lemma {:induction false} CountSplits(ptes: seq<Pte>, i: nat, n: nat, k: nat)
    requires i + n <= |ptes| && k <= |ptes|
    ensures CountTo(ptes, k) == CountTo(Erased(ptes, i, n), k) + Used(ptes, i, Upto(i, n, k))
    decreases k
  {
    if k > 0 {
      CountSplits(ptes, i, n, k - 1);
    }
  }

  lemma {:induction false} UsedExtremes(ptes: seq<Pte>, i: nat, n: nat)
    requires i + n <= |ptes| && NoTables(ptes)
    ensures Used(ptes, i, n) == n <==> AllLeaf(ptes, i, n)
    ensures Used(ptes, i, n) == 0 <==> AllZero(ptes, i, n)
    decreases n
  {
    if n > 0 {
      UsedExtremes(ptes, i, n - 1);
    }
  }

  lemma {:induction false} SubtractExact(x: nat, y: nat, n: nat)
    requires x <= y + n && y <= x && n <= COUNTS
    ensures (x % COUNTS - n) % COUNTS == y % COUNTS <==> x == y + n || (x == y && n == COUNTS)
  {
  }

  /** The count stays right exactly when every page of the range was mapped, or when 8192 pages
      were unmapped of which none was. */
  lemma {:induction false} CountStaysRight(ptes: seq<Pte>, i: nat, n: nat)
    requires i + n <= |ptes| <= COUNTS && NoTables(ptes)
    ensures (Count(ptes) % COUNTS - n) % COUNTS == Count(Erased(ptes, i, n)) % COUNTS <==>
            AllLeaf(ptes, i, n) || (n == COUNTS && AllZero(ptes, i, n))
  {
    CountSplits(ptes, i, n, |ptes|);
    UsedExtremes(ptes, i, n);
    SubtractExact(Count(ptes), Count(Erased(ptes, i, n)), n);
  }

  /** Unmapping two pages of which only the first is mapped brings the count of a table with two
      pages to zero, although one page is still mapped. */
  lemma {:induction false} UnmappedPageMiscounts(ptes: seq<Pte>)
    requires 3 <= |ptes| <= COUNTS && ptes[0].Leaf? && ptes[1].Leaf?
    requires AllZero(ptes, 2, |ptes| - 2)
    ensures (Count(ptes) % COUNTS - 2) % COUNTS == 0 && Erased(ptes, 1, 2)[0].Leaf?
  {
    TailUnused(ptes, |ptes|);
  }

  lemma {:induction false} TailUnused(ptes: seq<Pte>, k: nat)
    requires 2 <= k <= |ptes| && ptes[0].Leaf? && ptes[1].Leaf? && AllZero(ptes, 2, |ptes| - 2)
    ensures CountTo(ptes, k) == 2
    decreases k
  {
    if k > 2 {
      TailUnused(ptes, k - 1);
    } else {
      assert CountTo(ptes, 1) == 1;
    }
  }
}
