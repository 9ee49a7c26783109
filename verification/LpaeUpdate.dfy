/** The three ways in which the tables change: entries of one table are rewritten, a table is put
    below an entry, and everything below an entry is taken away.  Each keeps the invariant and
    changes the translation of exactly the addresses concerned. */
module LpaeUpdate {
  import opened LpaeTree

  // ----- rewriting entries ------------------------------------------------------------------------

  /** No pointer to a table appears or goes away. */
  predicate PlainChange(ptes: seq<Pte>, ptes': seq<Pte>) {
    && |ptes'| == |ptes|
    && forall j :: 0 <= j < |ptes| ==> ptes'[j] == ptes[j] || (!ptes'[j].Table? && !ptes[j].Table?)
  }

  /** The entry that points to table a, with another child count. */
  function Recounted(c: Config, h: Heap, a: nat, count: nat): map<nat, seq<Pte>>
    requires c.e > 0 && a in h.place && Anchored(c, h, a)
  {
    var p, j := h.place[a].up, h.place[a].num % c.e;
    h.tables[p := h.tables[p][j := Table(a, count)]]
  }

  /** Table a has new entries, and its parent's descriptor a new count. */
  function Rewrite(c: Config, h: Heap, a: nat, ptes: seq<Pte>, count: nat): (h': Heap)
    requires Inv(c, h) && a in h.tables
    ensures h'.tables.Keys == h.tables.Keys && h'.place == h.place && h'.pool == h.pool
  {
    var tables := if a == c.root then h.tables else assert Anchored(c, h, a); Recounted(c, h, a, count);
    h.(tables := tables[a := ptes])
  }

  predicate GoodCount(c: Config, h: Heap, a: nat, ptes: seq<Pte>, count: nat)
    requires a in h.place
  {
    count < COUNTS && (a != c.root && h.place[a].lvl == LAST ==> count == Count(ptes) % COUNTS)
  }

  /** What a table holds afterwards. */
  lemma {:induction false} RewriteAt(c: Config, h: Heap, a: nat, ptes: seq<Pte>, count: nat, b: nat)
    requires Inv(c, h) && a in h.tables && b in h.tables
    ensures var h' := Rewrite(c, h, a, ptes, count);
            && h'.tables.Keys == h.tables.Keys
            && (b == a ==> h'.tables[b] == ptes)
            && (b != a ==>
                  && |h'.tables[b]| == |h.tables[b]|
                  && forall j :: 0 <= j < |h.tables[b]| ==>
                       && SameEntry(h.tables[b][j], h'.tables[b][j])
                       && (|| h'.tables[b][j] == h.tables[b][j]
                           || (h'.tables[b][j] == Table(a, count) && h.tables[b][j].addr == a)))
            && (a != c.root && b == a ==>
                  && Anchored(c, h, a) && h.place[a].up != a
                  && h'.tables[h.place[a].up][h.place[a].num % c.e] == Table(a, count))
  {
    if a != c.root {
      assert Anchored(c, h, a);
    }
  }

  lemma {:induction false} RewriteEntryFits(c: Config, h: Heap, a: nat, ptes: seq<Pte>, count: nat, b: nat, j: nat)
    requires Inv(c, h) && a in h.tables && PlainChange(h.tables[a], ptes) && GoodCount(c, h, a, ptes, count)
    requires b in h.tables && j < |h.tables[b]|
    ensures var h' := Rewrite(c, h, a, ptes, count);
            b in h'.tables && j < |h'.tables[b]| && EntryFits(c, h', b, j)
  {
    RewriteAt(c, h, a, ptes, count, b);
    assert EntryFits(c, h, b, j);
    var p := h.tables[b][j];
    if p.Table? {
      RewriteAt(c, h, a, ptes, count, p.addr);
      if p.addr != a {
        RewriteUncounted(c, h, a, ptes, count, p.addr);
      } else {
        RewriteAt(c, h, a, ptes, count, a);
      }
    }
  }

  /** Changing a count does not change how many entries are in use. */
  lemma {:induction false} RewriteUncounted(c: Config, h: Heap, a: nat, ptes: seq<Pte>, count: nat, b: nat)
    requires Inv(c, h) && a in h.tables && b in h.tables && b != a
    ensures b in Rewrite(c, h, a, ptes, count).tables
    ensures Count(Rewrite(c, h, a, ptes, count).tables[b]) == Count(h.tables[b])
  {
    RewriteAt(c, h, a, ptes, count, b);
    SameCount(h.tables[b], Rewrite(c, h, a, ptes, count).tables[b], |h.tables[b]|);
  }

  lemma {:induction false} SameCount(s: seq<Pte>, s': seq<Pte>, k: nat)
    requires k <= |s| == |s'| && forall j :: 0 <= j < |s| ==> SameEntry(s[j], s'[j])
    ensures CountTo(s', k) == CountTo(s, k)
    decreases k
  {
    if k > 0 {
      SameCount(s, s', k - 1);
    }
  }

  lemma {:induction false} RewriteAnchored(c: Config, h: Heap, a: nat, ptes: seq<Pte>, count: nat, b: nat)
    requires Inv(c, h) && a in h.tables && PlainChange(h.tables[a], ptes)
    requires b in h.tables && b != c.root
    ensures Anchored(c, Rewrite(c, h, a, ptes, count), b)
  {
    assert Anchored(c, h, b);
    RewriteAt(c, h, a, ptes, count, h.place[b].up);
  }

  lemma {:induction false} RewriteKeeps(c: Config, h: Heap, a: nat, ptes: seq<Pte>, count: nat)
    requires Inv(c, h) && a in h.tables && PlainChange(h.tables[a], ptes) && GoodCount(c, h, a, ptes, count)
    ensures Inv(c, Rewrite(c, h, a, ptes, count))
  {
    var h' := Rewrite(c, h, a, ptes, count);
    forall b | b in h.tables
      ensures b in h'.tables && |h'.tables[b]| == |h.tables[b]|
    {
      RewriteAt(c, h, a, ptes, count, b);
    }
    RewriteAt(c, h, a, ptes, count, a);
    forall x, y | SameRegion(h', x, y)
      ensures x == y
    {
      assert SameRegion(h, x, y);
    }
    forall b, j | b in h'.tables && 0 <= j < |h'.tables[b]|
      ensures EntryFits(c, h', b, j)
    {
      RewriteEntryFits(c, h, a, ptes, count, b, j);
    }
    forall b | b in h'.tables && b != c.root
      ensures Anchored(c, h', b)
    {
      RewriteAnchored(c, h, a, ptes, count, b);
    }
  }

  /** What the entry itself says about x. */
  function EntryTranslation(c: Config, p: Pte, l: nat, x: nat): Translation
    requires c.e > 0 && l <= LAST
  {
    if p.Leaf? then Phys(p.phys + Off(c, x, l), p.prot) else Fault
  }

  /** Address x is translated by another entry of a after the change. */
  predicate Touched(c: Config, h: Heap, a: nat, ptes: seq<Pte>, x: nat)
    requires c.e > 0 && a in h.tables && |ptes| == |h.tables[a]|
  {
    && Covers(c, h, a, x) && Index(c, x, h.place[a].lvl) < |ptes|
    && ptes[Index(c, x, h.place[a].lvl)] != h.tables[a][Index(c, x, h.place[a].lvl)]
  }

  lemma {:induction false} RewriteUnaffected(c: Config, h: Heap, a: nat, ptes: seq<Pte>, count: nat, x: nat)
    requires Inv(c, h) && a in h.tables && PlainChange(h.tables[a], ptes) && InRange(c, x)
    requires !Touched(c, h, a, ptes, x)
    ensures Unaffected(c, h, Rewrite(c, h, a, ptes, count), x)
  {
    forall b | b in h.tables
      ensures SameAt(c, h, Rewrite(c, h, a, ptes, count), b, x)
    {
      RewriteAt(c, h, a, ptes, count, b);
      IndexFits(c, h, b, x);
    }
  }

  /** Only the addresses of the entries that changed are translated differently. */
  lemma {:induction false} RewriteTranslates(c: Config, h: Heap, a: nat, ptes: seq<Pte>, count: nat, x: nat)
    requires Inv(c, h) && a in h.tables && PlainChange(h.tables[a], ptes) && GoodCount(c, h, a, ptes, count)
    requires InRange(c, x)
    ensures Translate(c, Rewrite(c, h, a, ptes, count), x) ==
            if Touched(c, h, a, ptes, x)
            then EntryTranslation(c, ptes[Index(c, x, h.place[a].lvl)], h.place[a].lvl, x)
            else Translate(c, h, x)
  {
    if Touched(c, h, a, ptes, x) {
      var h' := Rewrite(c, h, a, ptes, count);
      RewriteKeeps(c, h, a, ptes, count);
      RewriteAt(c, h, a, ptes, count, a);
      WalkReaches(c, h', a, x);
    } else {
      RewriteUnaffected(c, h, a, ptes, count, x);
      TranslateSame(c, h, Rewrite(c, h, a, ptes, count), x);
    }
  }

  // ----- putting a table below an entry -----------------------------------------------------------

  /** arm_lpae_install_table: table t from the pool goes below entry i of table a. */
  function Install(c: Config, h: Heap, a: nat, i: nat, t: nat, ptes: seq<Pte>, count: nat): Heap
    requires a in h.tables && a in h.place && i < |h.tables[a]| && i < c.e
  {
    Heap(h.tables[a := h.tables[a][i := Table(t, count)]][t := ptes],
         h.place[t := Place(h.place[a].lvl + 1, Child(c, h.place[a].num, i), a)],
         h.pool - {t})
  }

  predicate NoTables(ptes: seq<Pte>) {
    forall j :: 0 <= j < |ptes| ==> !ptes[j].Table?
  }

  ghost predicate CanInstall(c: Config, h: Heap, a: nat, i: nat, t: nat, ptes: seq<Pte>, count: nat) {
    && Inv(c, h) && a in h.tables && h.place[a].lvl < LAST && i < |h.tables[a]| && i < c.e && !h.tables[a][i].Table?
    && t in h.pool && |ptes| == c.e && NoTables(ptes) && count < COUNTS
    && (h.place[a].lvl + 1 == LAST ==> count == Count(ptes) % COUNTS)
  }

  /** There is no table for the region of an entry that points to none. */
  lemma {:induction false} NoTableYet(c: Config, h: Heap, a: nat, i: nat, b: nat)
    requires Inv(c, h) && a in h.tables && i < |h.tables[a]| && i < c.e && !h.tables[a][i].Table?
    requires b in h.tables && h.place[b].lvl == h.place[a].lvl + 1
    ensures h.place[b].num != Child(c, h.place[a].num, i)
  {
    assert Anchored(c, h, b);
    if h.place[b].up == a {
      assert h.place[b].num % c.e != i;
    } else {
      assert !SameRegion(h, h.place[b].up, a);
      assert h.place[b].num / c.e != h.place[a].num;
    }
  }

  lemma {:induction false} InstallDistinct(c: Config, h: Heap, a: nat, i: nat, t: nat, ptes: seq<Pte>, count: nat)
    requires CanInstall(c, h, a, i, t, ptes, count)
    ensures Distinct(Install(c, h, a, i, t, ptes, count))
  {
    var h' := Install(c, h, a, i, t, ptes, count);
    forall x, y | SameRegion(h', x, y)
      ensures x == y
    {
      if x == t && y != t {
        NoTableYet(c, h, a, i, y);
      } else if x != t && y == t {
        NoTableYet(c, h, a, i, x);
      } else if x != t && y != t {
        assert SameRegion(h, x, y);
      }
    }
  }

  lemma {:induction false} InstallEntryFits(
    c: Config, h: Heap, a: nat, i: nat, t: nat, ptes: seq<Pte>, count: nat, b: nat, j: nat)
    requires CanInstall(c, h, a, i, t, ptes, count)
    requires var h' := Install(c, h, a, i, t, ptes, count); b in h'.tables && j < |h'.tables[b]|
    ensures var h' := Install(c, h, a, i, t, ptes, count); EntryFits(c, h', b, j)
  {
    if b == a && j == i {
    } else if b != t {
      assert EntryFits(c, h, b, j);
    }
  }

  lemma {:induction false} InstallAnchored(
    c: Config, h: Heap, a: nat, i: nat, t: nat, ptes: seq<Pte>, count: nat, b: nat)
    requires CanInstall(c, h, a, i, t, ptes, count)
    requires b in h.tables || b == t
    requires b != c.root
    ensures Anchored(c, Install(c, h, a, i, t, ptes, count), b)
  {
    if b != t {
      assert Anchored(c, h, b);
    }
  }

  lemma {:induction false} InstallSizes(c: Config, h: Heap, a: nat, i: nat, t: nat, ptes: seq<Pte>, count: nat)
    requires CanInstall(c, h, a, i, t, ptes, count)
    ensures SizesFit(c, Install(c, h, a, i, t, ptes, count))
  {
  }

  lemma {:induction false} InstallEntriesFit(c: Config, h: Heap, a: nat, i: nat, t: nat, ptes: seq<Pte>, count: nat)
    requires CanInstall(c, h, a, i, t, ptes, count)
    ensures var h' := Install(c, h, a, i, t, ptes, count); h'.place.Keys == h'.tables.Keys && EntriesFit(c, h')
  {
    var h' := Install(c, h, a, i, t, ptes, count);
    forall b, j | b in h'.tables && 0 <= j < |h'.tables[b]|
      ensures EntryFits(c, h', b, j)
    {
      InstallEntryFits(c, h, a, i, t, ptes, count, b, j);
    }
  }

  lemma {:induction false} InstallKeeps(c: Config, h: Heap, a: nat, i: nat, t: nat, ptes: seq<Pte>, count: nat)
    requires CanInstall(c, h, a, i, t, ptes, count)
    ensures Inv(c, Install(c, h, a, i, t, ptes, count))
  {
    var h' := Install(c, h, a, i, t, ptes, count);
    InstallSizes(c, h, a, i, t, ptes, count);
    InstallDistinct(c, h, a, i, t, ptes, count);
    InstallEntriesFit(c, h, a, i, t, ptes, count);
    forall b | b in h'.tables && b != c.root
      ensures Anchored(c, h', b)
    {
      InstallAnchored(c, h, a, i, t, ptes, count, b);
    }
  }

  /** Address x is translated by way of entry i of table a. */
  predicate Through(c: Config, h: Heap, a: nat, i: nat, x: nat)
    requires c.e > 0 && a in h.place
  {
    Covers(c, h, a, x) && Index(c, x, h.place[a].lvl) == i
  }

  lemma {:induction false} InstallCovers(c: Config, h: Heap, a: nat, i: nat, t: nat, ptes: seq<Pte>, count: nat, x: nat)
    requires CanInstall(c, h, a, i, t, ptes, count) && Through(c, h, a, i, x)
    ensures Covers(c, Install(c, h, a, i, t, ptes, count), t, x)
  {
    DivModUnique(Region(c, x, h.place[a].lvl), Child(c, h.place[a].num, i), c.e);
  }

  lemma {:induction false} InstallUnaffected(
    c: Config, h: Heap, a: nat, i: nat, t: nat, ptes: seq<Pte>, count: nat, x: nat)
    requires CanInstall(c, h, a, i, t, ptes, count) && InRange(c, x) && !Through(c, h, a, i, x)
    ensures Unaffected(c, h, Install(c, h, a, i, t, ptes, count), x)
  {
  }

  lemma {:induction false} InstalledTranslates(
    c: Config, h: Heap, a: nat, i: nat, t: nat, ptes: seq<Pte>, count: nat, x: nat)
    requires CanInstall(c, h, a, i, t, ptes, count) && Through(c, h, a, i, x)
    ensures Translate(c, Install(c, h, a, i, t, ptes, count), x) ==
            EntryTranslation(c, ptes[Index(c, x, h.place[a].lvl + 1)], h.place[a].lvl + 1, x)
  {
    InstallKeeps(c, h, a, i, t, ptes, count);
    InstallCovers(c, h, a, i, t, ptes, count, x);
    WalkReaches(c, Install(c, h, a, i, t, ptes, count), t, x);
  }

  /** Only the addresses of the entry are affected: they are translated by the new table. */
  lemma {:induction false} InstallTranslates(
    c: Config, h: Heap, a: nat, i: nat, t: nat, ptes: seq<Pte>, count: nat, x: nat)
    requires CanInstall(c, h, a, i, t, ptes, count) && InRange(c, x)
    ensures Translate(c, Install(c, h, a, i, t, ptes, count), x) ==
            if Through(c, h, a, i, x)
            then EntryTranslation(c, ptes[Index(c, x, h.place[a].lvl + 1)], h.place[a].lvl + 1, x)
            else Translate(c, h, x)
  {
    if Through(c, h, a, i, x) {
      InstalledTranslates(c, h, a, i, t, ptes, count, x);
    } else {
      InstallUnaffected(c, h, a, i, t, ptes, count, x);
      TranslateSame(c, h, Install(c, h, a, i, t, ptes, count), x);
    }
  }

  // ----- taking away what is below an entry -----------------------------------------------------------

  /** The number of the region k levels further up. */
  function Up(c: Config, num: nat, k: nat): nat
    requires c.e > 0
    decreases k
  {
    if k == 0 then num else Up(c, num / c.e, k - 1)
  }

  /** Table b translates part of region q of level l. */
  predicate Below(c: Config, h: Heap, l: nat, q: nat, b: nat)
    requires c.e > 0
  {
    b in h.place && h.place[b].lvl > l && Up(c, h.place[b].num, h.place[b].lvl - 1 - l) == q
  }

  function AllBelow(c: Config, h: Heap, l: nat, q: nat): (r: set<nat>)
    requires c.e > 0
  {
    set b | b in h.place && Below(c, h, l, q, b)
  }

  /** Entry i of table a is cleared, and the tables below it go back to the pool. */
  function Prune(c: Config, h: Heap, a: nat, i: nat): Heap
    requires a in h.tables && a in h.place && i < |h.tables[a]| && i < c.e
  {
    var gone := AllBelow(c, h, h.place[a].lvl, Child(c, h.place[a].num, i));
    Heap(h.tables[a := h.tables[a][i := Zero]] - gone, h.place - gone, h.pool + gone)
  }

  /** The parent of a table in the region is in the region too, or holds the entry for it. */
  lemma {:induction false} ParentBelow(c: Config, h: Heap, l: nat, q: nat, b: nat)
    requires Inv(c, h) && b in h.tables && b != c.root && h.place[b].lvl > l
    ensures Anchored(c, h, b)
    ensures h.place[b].lvl > l + 1 ==> (Below(c, h, l, q, b) <==> Below(c, h, l, q, h.place[b].up))
    ensures h.place[b].lvl == l + 1 ==> (Below(c, h, l, q, b) <==> h.place[b].num == q)
  {
    assert Anchored(c, h, b);
  }

  ghost predicate CanPrune(c: Config, h: Heap, a: nat, i: nat) {
    Inv(c, h) && a in h.tables && i < |h.tables[a]| && i < c.e && h.place[a].lvl < LAST
  }

  lemma {:induction false} PruneLeaves(c: Config, h: Heap, a: nat, i: nat, b: nat)
    requires CanPrune(c, h, a, i) && b in h.tables
    ensures var h' := Prune(c, h, a, i);
            && (b in h'.tables <==> b in h'.place)
            && (b in h'.tables <==> !Below(c, h, h.place[a].lvl, Child(c, h.place[a].num, i), b))
            && (b in h'.tables ==>
                  && h'.place[b] == h.place[b]
                  && h'.tables[b] == if b == a then h.tables[a][i := Zero] else h.tables[b])
            && c.root in h'.tables && a in h'.tables
  {
  }

  /** A table that stays has no pointer to one that goes, except in the entry that is cleared. */
  lemma {:induction false} PruneEntryFits(c: Config, h: Heap, a: nat, i: nat, b: nat, j: nat)
    requires CanPrune(c, h, a, i)
    requires b in h.tables && b in Prune(c, h, a, i).tables && j < |Prune(c, h, a, i).tables[b]|
    ensures EntryFits(c, Prune(c, h, a, i), b, j)
  {
    PruneLeaves(c, h, a, i, b);
    assert |h.tables[b]| == |Prune(c, h, a, i).tables[b]|;
    assert EntryFits(c, h, b, j);
    var p := h.tables[b][j];
    if p.Table? && !(b == a && j == i) {
      var l, q := h.place[a].lvl, Child(c, h.place[a].num, i);
      PruneLeaves(c, h, a, i, p.addr);
      if h.place[p.addr].lvl > l {
        assert p.addr != c.root;
        ParentBelow(c, h, l, q, p.addr);
        assert b != a ==> !SameRegion(h, a, b);
      }
    }
  }

  lemma {:induction false} PruneAnchored(c: Config, h: Heap, a: nat, i: nat, b: nat)
    requires CanPrune(c, h, a, i)
    requires b in h.tables && b in Prune(c, h, a, i).tables && b != c.root
    ensures Anchored(c, Prune(c, h, a, i), b)
  {
    var l, q := h.place[a].lvl, Child(c, h.place[a].num, i);
    PruneLeaves(c, h, a, i, b);
    assert Anchored(c, h, b);
    var p, j := h.place[b].up, h.place[b].num % c.e;
    PruneLeaves(c, h, a, i, p);
    if h.place[b].lvl > l {
      ParentBelow(c, h, l, q, b);
    }
    if p == a && j == i {
      DivModUnique(h.place[b].num, q, c.e);
    }
  }

  lemma {:induction false} PruneKeeps(c: Config, h: Heap, a: nat, i: nat)
    requires CanPrune(c, h, a, i)
    ensures Inv(c, Prune(c, h, a, i))
  {
    var h' := Prune(c, h, a, i);
    forall x, y | SameRegion(h', x, y)
      ensures x == y
    {
      assert SameRegion(h, x, y);
    }
    forall b | b in h.tables
      ensures b in h'.tables ==> b in h'.place && h'.place[b] == h.place[b] && |h'.tables[b]| == |h.tables[b]|
      ensures c.root in h'.tables
    {
      PruneLeaves(c, h, a, i, b);
    }
    forall b, j | b in h'.tables && 0 <= j < |h'.tables[b]|
      ensures EntryFits(c, h', b, j)
    {
      PruneEntryFits(c, h, a, i, b, j);
    }
    forall b | b in h'.tables && b != c.root
      ensures Anchored(c, h', b)
    {
      PruneAnchored(c, h, a, i, b);
    }
  }

  /** A table below the entry covers only addresses translated by way of the entry. */
  lemma {:induction false} RegionUp(c: Config, x: nat, l: nat, m: nat)
    requires c.e > 0 && l < m <= LAST
    ensures Region(c, x, l) == Up(c, Region(c, x, m) / c.e, m - 1 - l)
    decreases m - l
  {
    if l + 1 < m {
      RegionUp(c, x, l, m - 1);
    }
  }

  lemma {:induction false} BelowCovers(c: Config, h: Heap, a: nat, i: nat, b: nat, x: nat)
    requires CanPrune(c, h, a, i) && b in h.tables && Covers(c, h, b, x)
    requires Below(c, h, h.place[a].lvl, Child(c, h.place[a].num, i), b)
    ensures Through(c, h, a, i, x)
  {
    RegionUp(c, x, h.place[a].lvl, h.place[b].lvl);
  }

  lemma {:induction false} PruneUnaffected(c: Config, h: Heap, a: nat, i: nat, x: nat)
    requires CanPrune(c, h, a, i) && InRange(c, x) && !Through(c, h, a, i, x)
    ensures Unaffected(c, h, Prune(c, h, a, i), x)
  {
    forall b | b in h.tables
      ensures SameAt(c, h, Prune(c, h, a, i), b, x)
    {
      PruneLeaves(c, h, a, i, b);
      if Covers(c, h, b, x) && Below(c, h, h.place[a].lvl, Child(c, h.place[a].num, i), b) {
        BelowCovers(c, h, a, i, b, x);
      }
    }
  }

  /** Exactly the addresses of the entry lose their translation. */
  lemma {:induction false} PruneTranslates(c: Config, h: Heap, a: nat, i: nat, x: nat)
    requires CanPrune(c, h, a, i) && InRange(c, x)
    ensures Translate(c, Prune(c, h, a, i), x) == if Through(c, h, a, i, x) then Fault else Translate(c, h, x)
  {
    var h' := Prune(c, h, a, i);
    if Through(c, h, a, i, x) {
      PruneKeeps(c, h, a, i);
      PruneLeaves(c, h, a, i, a);
      WalkReaches(c, h', a, x);
    } else {
      PruneUnaffected(c, h, a, i, x);
      TranslateSame(c, h, h', x);
    }
  }
}
