/** The page table of drivers/iommu/qcom-io-pgtable-arm.c, changed in place. */
module LpaePgtable {
  import opened Arith
  import opened LpaeTree
  import opened LpaeUpdate
  import opened LpaeSpec
  import opened LpaeLast
  import opened LpaeUnmap

  /** The descriptor that points to the table being changed, if there is one (prev_ptep). */
  datatype Prev = NoPrev | Prev(up: nat, slot: nat)

  class PageTable {
    const c: Config
    /** The first physical address that cannot be output. */
    const oas: nat
    var tables: map<nat, seq<Pte>>
    var pool: set<nat>
    ghost var place: map<nat, Place>

    ghost function State(): Heap
      reads this
    {
      Heap(tables, place, pool)
    }

    ghost predicate Valid()
      reads this
    {
      Inv(c, State())
    }

    /** The descriptor of table a's parent, as the recursion passes it down. */
    ghost predicate IsPrev(a: nat, prev: Prev)
      reads this
    {
      && a in place && c.e > 0
      && (a == c.root ==> prev.NoPrev?)
      && (a != c.root ==> prev == Prev(place[a].up, place[a].num % c.e))
    }

    constructor (c: Config, oas: nat, pool: set<nat>)
      requires Good(c) && c.root !in pool
      ensures Valid() && this.c == c && this.oas == oas && this.pool == pool && tables.Keys == {c.root}
      ensures forall x: nat :: InRange(c, x) ==> Translate(c, State(), x) == Fault
    {
      this.c, this.oas, this.pool := c, oas, pool;
      tables := map[c.root := seq(c.r, _ => Zero)];
      place := map[c.root := Place(c.s, 0, c.root)];
    }

    /** arm_lpae_iova_to_phys */
    method IovaToPhys(iova: nat) returns (r: Translation)
      requires Valid() && InRange(c, iova)
      ensures r == Translate(c, State(), iova)
    {
      var a, l := c.root, c.s;
      RootCovers(c, State(), iova);
      while true
        invariant l <= LAST && a in tables && place[a].lvl == l && Covers(c, State(), a, iova)
        invariant Walk(c, State(), a, l, iova) == Translate(c, State(), iova)
        decreases LAST - l
      {
        IndexFits(c, State(), a, iova);
        match tables[a][Index(c, iova, l)] {
          case Zero =>
            return Fault;
          case Leaf(phys, prot) =>
            return Phys(phys + Off(c, iova, l), prot);
          case Table(addr, _) =>
            ChildCovers(c, State(), a, iova);
            a, l := addr, l + 1;
        }
      }
    }

    /** iopte_tblcnt_add and iopte_tblcnt_sub */
    method AddCount(prev: Prev, n: int)
      requires prev.Prev? && prev.up in tables && prev.slot < |tables[prev.up]| && tables[prev.up][prev.slot].Table?
      modifies this`tables
      ensures var p := old(tables)[prev.up][prev.slot];
              tables == old(tables)[prev.up := old(tables)[prev.up][prev.slot := Table(p.addr, (p.count + n) % COUNTS)]]
    {
      var p := tables[prev.up][prev.slot];
      tables := tables[prev.up := tables[prev.up][prev.slot := p.(count := (p.count + n) % COUNTS)]];
    }

    /** Whether none of the n entries from i on is in use. */
    method CheckUnused(a: nat, i: nat, n: nat) returns (ok: bool)
      requires a in tables && i + n <= |tables[a]|
      ensures ok <==> AllZero(tables[a], i, n)
    {
      var k := 0;
      while k < n
        invariant k <= n && AllZero(tables[a], i, k)
      {
        if !tables[a][i + k].Zero? {
          return false;
        }
        k := k + 1;
      }
      return true;
    }

    /** __arm_lpae_init_pte */
    method WriteLeaves(a: nat, l: nat, i: nat, n: nat, paddr: nat, prot: nat)
      requires l <= LAST && a in tables && i + n <= |tables[a]|
      modifies this`tables
      ensures tables == old(tables)[a := Filled(old(tables)[a], i, n, paddr, Block(c, l), prot)]
    {
      ghost var ptes := tables[a];
      var k := 0;
      assert Filled(ptes, i, 0, paddr, Block(c, l), prot) == ptes;
      while k < n
        invariant k <= n && a in tables && |tables[a]| == |ptes|
        invariant tables == old(tables)[a := Filled(ptes, i, k, paddr, Block(c, l), prot)]
      {
        FilledNext(ptes, i, k, paddr, Block(c, l), prot);
        tables := tables[a := tables[a][i + k := Leaf(Nth(paddr, k, Block(c, l)), prot)]];
        k := k + 1;
      }
    }

    /** arm_lpae_init_pte: unused entries are filled and counted, or nothing is done. */
    method InitPte(a: nat, l: nat, i: nat, n: nat, paddr: nat, prot: nat, prev: Prev) returns (ok: bool)
      requires Valid() && a in tables && place[a].lvl == l && i + n <= |tables[a]| && IsPrev(a, prev)
      modifies this`tables
      ensures ok <==> AllZero(old(tables)[a], i, n)
      ensures !ok ==> State() == old(State())
      ensures ok ==> State() == FillOf(c, old(State()), a, i, n, paddr, Block(c, l), prot)
    {
      ghost var h := State();
      ok := CheckUnused(a, i, n);
      if !ok {
        return;
      }
      WriteLeaves(a, l, i, n, paddr, prot);
      ghost var ptes := tables[a];
      if prev.Prev? {
        RewriteInSteps(c, h, a, ptes, (CountOf(c, h, a) + n) % COUNTS);
        AddCount(prev, n);
      }
    }

    /** A leaf entry at this level: the entries for n blocks from iova on. */
    method MapHere(a: nat, l: nat, prev: Prev, iova: nat, paddr: nat, n: nat, prot: nat) returns (ok: bool)
      requires Valid() && EntriesFor(c, State(), a, iova, n) && place[a].lvl == l && IsPrev(a, prev)
      modifies this`tables
      ensures Valid() && tables.Keys == old(tables.Keys)
      ensures ok <==> AllZero(old(tables)[a], Index(c, iova, l), n)
      ensures place == old(place) && NoNewEmpty(c, old(State()), State())
      ensures ok ==> Mapped(c, old(State()), State(), iova, Span(c, n, l), paddr, prot)
      ensures ok <==> !InTheWay(c, old(State()), iova, Span(c, n, l), l)
      ensures !ok ==> State() == old(State())
    {
      ghost var h := State();
      ok := InitPte(a, l, Index(c, iova, l), n, paddr, prot, prev);
      if ok {
        FillStep(c, h, a, iova, n, paddr, prot);
        FillNoNewEmpty(c, h, a, Index(c, iova, l), n, paddr, Block(c, l), prot);
        UnusedRun(c, h, a, iova, n);
      } else {
        UsedRun(c, h, a, iova, n);
      }
    }

    /** A zeroed page from the allocator, installed below an unused entry. */
    method InstallEmpty(a: nat, i: nat) returns (ok: bool, t: nat)
      requires a in tables && a in place && i < |tables[a]| && i < c.e
      modifies this`tables, this`pool, this`place
      ensures ok <==> old(pool) != {}
      ensures ok ==> t in old(pool) && State() == Install(c, old(State()), a, i, t, ZeroTable(c), 0)
      ensures !ok ==> State() == old(State())
    {
      if pool == {} {
        return false, 0;
      }
      t :| t in pool;
      pool := pool - {t};
      tables := tables[a := tables[a][i := Table(t, 0)]][t := ZeroTable(c)];
      place := place[t := Place(place[a].lvl + 1, Child(c, place[a].num, i), a)];
      ok := true;
    }

    /** The step of __arm_lpae_map from table a to the next level, making a table if there is none. */
    method NextTable(a: nat, l: nat, iova: nat) returns (r: MapResult, t: nat)
      requires Valid() && a in tables && place[a].lvl == l < LAST && Covers(c, State(), a, iova) && InRange(c, iova)
      modifies this`tables, this`pool, this`place
      ensures NextStep(c, old(State()), State(), l, t)
      ensures r.MapOk? ==>
                && t in tables && place[t].lvl == l + 1 && Covers(c, State(), t, iova)
                && IsPrev(t, Prev(a, Index(c, iova, l)))
      ensures !r.MapOk? ==> (r.Exists? || r.NoMemory?) && State() == old(State())
      ensures r.Exists? ==> Index(c, iova, l) < |tables[a]| && tables[a][Index(c, iova, l)].Leaf?
      ensures r.NoMemory? ==> pool == {}
    {
      var i := Index(c, iova, l);
      IndexFits(c, State(), a, iova);
      if tables[a][i].Leaf? {
        return Exists, 0;
      }
      if tables[a][i].Zero? {
        ghost var h := State();
        var ok, page := InstallEmpty(a, i);
        if !ok {
          return NoMemory, 0;
        }
        InstallEmptyStep(c, h, a, i, page);
        NewTableStep(c, h, a, i, page);
      }
      ghost var h1 := State();
      assert Covers(c, h1, a, iova);
      ChildCovers(c, h1, a, iova);
      ChildPrev(c, h1, a, i);
      return MapOk, tables[a][i].addr;
    }

    /** The entries for as much of the request as lies in table a. */
    method MapRun(a: nat, l: nat, prev: Prev, iova: nat, paddr: nat, pgcount: nat, prot: nat)
      returns (r: MapResult, n: nat)
      requires Valid() && a in tables && place[a].lvl == l && IsPrev(a, prev)
      requires Covers(c, State(), a, iova) && l <= LAST && Aligned(c, iova, l)
      requires a == c.root ==> Index(c, iova, l) + pgcount <= c.r
      modifies this`tables
      ensures n == Min(pgcount, c.e - Index(c, iova, l)) && tables.Keys == old(tables.Keys)
      ensures MapOutcome(c, old(State()), State(), l, iova, Span(c, n, l), paddr, l, prot, r)
    {
      n := Min(pgcount, c.e - Index(c, iova, l));
      RunFits(c, State(), a, iova, pgcount, n);
      var ok := MapHere(a, l, prev, iova, paddr, n, prot);
      r := if ok then MapOk else Exists;
    }

    /** Table a of level k has the entries from iova on, and prev points to it. */
    ghost predicate IsAt(a: nat, prev: Prev, iova: nat, k: nat)
      reads this
    {
      a in tables && IsPrev(a, prev) && place[a].lvl == k && Covers(c, State(), a, iova)
    }

    /** __arm_lpae_map: a run of leaf entries in one table of level k, reached from table a of
        level l.  The table with the entries is reported for use as map state. */
    method MapAt(a: nat, l: nat, prev: Prev, iova: nat, paddr: nat, k: nat, pgcount: nat, prot: nat)
      returns (r: MapResult, n: nat, at: nat, last: Prev)
      requires Valid() && IsAt(a, prev, iova, l)
      requires l <= k <= LAST && InRange(c, iova) && Aligned(c, iova, k) && pgcount > 0
      requires a == c.root && l == k ==> Index(c, iova, k) + pgcount <= c.r
      modifies this`tables, this`pool, this`place
      ensures n == Min(pgcount, c.e - Index(c, iova, k))
      ensures MapOutcome(c, old(State()), State(), l, iova, Span(c, n, k), paddr, k, prot, r)
      ensures r.MapOk? ==> IsAt(at, last, iova, k)
      decreases LAST - l, 1
    {
      if l == k {
        r, n := MapRun(a, l, prev, iova, paddr, pgcount, prot);
        at, last := a, prev;
      } else {
        r, n, at, last := MapBelow(a, l, iova, paddr, k, pgcount, prot);
      }
    }

    /** The part of __arm_lpae_map that goes on to the next level. */
    method MapBelow(a: nat, l: nat, iova: nat, paddr: nat, k: nat, pgcount: nat, prot: nat)
      returns (r: MapResult, n: nat, at: nat, last: Prev)
      requires Valid() && a in tables && place[a].lvl == l < k <= LAST && Covers(c, State(), a, iova)
      requires InRange(c, iova) && Aligned(c, iova, k) && pgcount > 0
      modifies this`tables, this`pool, this`place
      ensures n == Min(pgcount, c.e - Index(c, iova, k))
      ensures MapOutcome(c, old(State()), State(), l, iova, Span(c, n, k), paddr, k, prot, r)
      ensures r.MapOk? ==> IsAt(at, last, iova, k)
      decreases LAST - l, 0
    {
      ghost var h := State();
      n, at, last := Min(pgcount, c.e - Index(c, iova, k)), 0, NoPrev;
      var t;
      r, t := NextTable(a, l, iova);
      if !r.MapOk? {
        OutcomeNoTable(c, h, a, iova, n, paddr, k, prot, r);
        return;
      }
      ghost var h1 := State();
      r, n, at, last := MapAt(t, l + 1, Prev(a, Index(c, iova, l)), iova, paddr, k, pgcount, prot);
      OutcomeAfterInstall(c, h, h1, State(), l, t, iova, n, paddr, k, prot, r);
    }

    /** qcom_arm_lpae_map_pages, for blocks of level k.  Without access rights there is nothing to do. */
    method MapPages(iova: nat, paddr: nat, k: nat, pgcount: nat, prot: nat, access: bool)
      returns (r: MapResult, mapped: nat)
      requires Valid() && c.s <= k <= LAST && Aligned(c, iova, k)
      requires k == c.s ==> Region(c, iova, k) + pgcount <= c.r
      modifies this`tables, this`pool, this`place
      ensures Valid() && SamePages(old(State()), State())
      ensures r.Invalid? <==> pgcount == 0
      ensures r.OutOfRange? <==> pgcount > 0 && (!InRange(c, iova) || paddr >= oas)
      ensures r.Invalid? || r.OutOfRange? || !access ==> mapped == 0 && State() == old(State())
      ensures r.MapOk? && access ==>
                && mapped == Span(c, Min(pgcount, c.e - Index(c, iova, k)), k)
                && Mapped(c, old(State()), State(), iova, mapped, paddr, prot)
                && !InTheWay(c, old(State()), iova, mapped, k)
      ensures !r.MapOk? ==> mapped == 0 && SameMap(c, old(State()), State())
      ensures r.Exists? ==> InTheWay(c, old(State()), iova, Span(c, Min(pgcount, c.e - Index(c, iova, k)), k), k)
      ensures r.NoMemory? ==> |old(pool)| + c.s < k
      ensures pgcount > 0 && InRange(c, iova) && paddr < oas && access && k <= |old(pool)| + c.s ==>
                (r.Exists? <==>
                   InTheWay(c, old(State()), iova, Span(c, Min(pgcount, c.e - Index(c, iova, k)), k), k))
      ensures NoNewEmpty(c, old(State()), State()) && (NoneEmpty(c, old(State())) ==> NoneEmpty(c, State()))
    {
      if pgcount == 0 {
        return Invalid, 0;
      }
      if !InRange(c, iova) || paddr >= oas {
        return OutOfRange, 0;
      }
      if !access {
        return MapOk, 0;
      }
      RootCovers(c, State(), iova);
      var n, at, last;
      r, n, at, last := MapAt(c.root, c.s, NoPrev, iova, paddr, k, pgcount, prot);
      mapped := if r.MapOk? then Span(c, n, k) else 0;
    }

    /** These tables are as they were in the heap h. */
    ghost predicate Kept(h: Heap, s: set<nat>)
      reads this
    {
      forall b :: b in s ==> b in tables && b in h.tables && tables[b] == h.tables[b]
    }

    /** __arm_lpae_free_pgtable: table a of the heap h, and all tables below it, go back to the pool. */
    method FreePgtable(a: nat, l: nat, ghost h: Heap)
      requires Inv(c, h) && a in h.tables && a != c.root && h.place[a].lvl == l && Kept(h, Subtree(c, h, a))
      modifies this`tables, this`pool
      ensures tables == old(tables) - Subtree(c, h, a)
      ensures pool == old(pool) + Subtree(c, h, a)
      decreases LAST - l, 1
    {
      SubtreeIs(c, h, a);
      if l < LAST {
        var i := 0;
        while i < c.e
          invariant i <= c.e
          invariant tables == old(tables) - BelowFirst(c, h, a, i)
          invariant pool == old(pool) + BelowFirst(c, h, a, i)
        {
          BelowOneNext(c, h, a, i);
          FreeEntry(a, l, i, h);
          i := i + 1;
        }
      }
      tables := tables - {a};
      pool := pool + {a};
    }

    method FreeEntry(a: nat, l: nat, i: nat, ghost h: Heap)
      requires Inv(c, h) && a in h.tables && h.place[a].lvl == l < LAST && i < |h.tables[a]|
      requires Kept(h, {a}) && Kept(h, BelowOne(c, h, a, i))
      modifies this`tables, this`pool
      ensures tables == old(tables) - BelowOne(c, h, a, i)
      ensures pool == old(pool) + BelowOne(c, h, a, i)
      decreases LAST - l, 0
    {
      if tables[a][i].Table? {
        ChildPrev(c, h, a, i);
        FreePgtable(tables[a][i].addr, l + 1, h);
      }
    }

    /** One round of the loop in __arm_lpae_unmap at the level of the request: a block goes, or a
        table with everything below it. */
    method ClearEntry(a: nat, l: nat, iova: nat)
      requires Valid() && EntriesFor(c, State(), a, iova, 1) && place[a].lvl == l && (l == LAST ==> a == c.root)
      requires !tables[a][Index(c, iova, l)].Zero?
      modifies this`tables, this`pool, this`place
      ensures Valid() && Unmapped(c, old(State()), State(), iova, Span(c, 1, l)) && SamePages(old(State()), State())
      ensures NoNewEmpty(c, old(State()), State())
      ensures a in tables && a in place && place[a] == old(place[a]) && |tables[a]| == old(|tables[a]|)
    {
      ghost var h := State();
      var i := Index(c, iova, l);
      var p := tables[a][i];
      tables := tables[a := tables[a][i := Zero]];
      if p.Table? {
        ClearTableStep(c, h, a, iova);
        FreePgtable(p.addr, l + 1, h);
        place := place - Subtree(c, h, p.addr);
      } else {
        ClearLeafStep(c, h, a, iova);
      }
      ClearNoNewEmpty(c, h, State(), a);
    }

    /** The loop: up to n entries from the one for iova on, until one is unused. */
    method UnmapHere(a: nat, l: nat, iova: nat, n: nat) returns (done: nat)
      requires Valid() && EntriesFor(c, State(), a, iova, n) && place[a].lvl == l && (l == LAST ==> a == c.root)
      modifies this`tables, this`pool, this`place
      ensures Valid() && SamePages(old(State()), State()) && NoNewEmpty(c, old(State()), State())
      ensures done <= n && Unmapped(c, old(State()), State(), iova, Span(c, done, l))
      ensures done < n ==> NotMapped(c, old(State()), iova + Span(c, done, l))
    {
      ghost var h0 := State();
      done := 0;
      while done < n
        invariant done <= n && Valid() && SamePages(h0, State()) && NoNewEmpty(c, h0, State())
        invariant a in tables && a in place && place[a] == h0.place[a] && |tables[a]| == |h0.tables[a]|
        invariant Unmapped(c, h0, State(), iova, Span(c, done, l))
      {
        ghost var h := State();
        NextEntryFor(c, h0, h, a, iova, n, done);
        if tables[a][Index(c, iova, l) + done].Zero? {
          ZeroFaults(c, h, a, iova + Span(c, done, l));
          break;
        }
        ClearEntry(a, l, iova + Span(c, done, l));
        UnmappedJoin(c, h0, h, State(), iova, Span(c, done, l), Span(c, 1, l));
        SpanNext(c, done, l);
        done := done + 1;
      }
    }

    /** __arm_lpae_set_pte with zero */
    method EraseEntries(t: nat, i: nat, n: nat)
      requires t in tables && i + n <= |tables[t]|
      modifies this`tables
      ensures tables == old(tables)[t := Erased(old(tables)[t], i, n)]
    {
      ghost var ptes := tables[t];
      var k := 0;
      assert Erased(ptes, i, 0) == ptes;
      while k < n
        invariant k <= n && t in tables && |tables[t]| == |ptes|
        invariant tables == old(tables)[t := Erased(ptes, i, k)]
      {
        ErasedNext(ptes, i, k);
        tables := tables[t := tables[t][i + k := Zero]];
        k := k + 1;
      }
    }

    /** Erase entries of table t and count them out of its descriptor. */
    method EraseCounted(t: nat, k: nat, n: nat, prev: Prev)
      requires Valid() && t in tables && t != c.root && IsPrev(t, prev) && k + n <= |tables[t]|
      modifies this`tables
      ensures State() == EraseOf(c, old(State()), t, k, n)
    {
      ghost var h := State();
      RewriteInSteps(c, h, t, Erased(h.tables[t], k, n), (CountOf(c, h, t) - n) % COUNTS);
      EraseEntries(t, k, n);
      AddCount(prev, 0 - n);
    }

    /** The branch of __arm_lpae_unmap for pages below a last-level table.  If these are what was asked
        for, the table goes exactly when its last entry does. */
    method UnmapLast(a: nat, iova: nat, pgcount: nat) returns (n: nat)
      requires Valid() && a in tables && place[a].lvl == LAST - 1 && Covers(c, State(), a, iova)
      requires Index(c, iova, LAST - 1) < |tables[a]| && tables[a][Index(c, iova, LAST - 1)].Table?
      requires pgcount > 0
      modifies this`tables, this`pool, this`place
      ensures n == Min(pgcount, c.e - Index(c, iova, LAST))
      ensures Valid() && Unmapped(c, old(State()), State(), iova, n) <==> CountsOut(c, old(State()), iova, n)
      ensures CountsOut(c, old(State()), iova, n) ==>
                && SamePages(old(State()), State()) && NoNewEmpty(c, old(State()), State())
                && var t := old(tables)[a][Index(c, iova, LAST - 1)].addr;
                   && t in old(tables) && Index(c, iova, LAST) + n <= |old(tables)[t]|
                   && (t !in tables <==> AllZero(Erased(old(tables)[t], Index(c, iova, LAST), n), 0, c.e))
    {
      ghost var h := State();
      n := Min(pgcount, c.e - Index(c, iova, LAST));
      ghost var t := tables[a][Index(c, iova, LAST - 1)].addr;
      LastAtFacts(c, h, a, t, iova, n);
      UnmapLastExact(c, h, a, t, iova, n);
      if CountsOut(c, h, iova, n) {
        UnmapLastNoNewEmpty(c, h, a, t, iova, n);
      }
      EraseLast(a, iova, n);
    }

    /** The entries go, the count goes down, and at a count of zero the table is freed. */
    method EraseLast(a: nat, iova: nat, n: nat)
      requires Valid()
      requires a in tables && Index(c, iova, LAST - 1) < |tables[a]| && tables[a][Index(c, iova, LAST - 1)].Table?
      requires LastAt(c, State(), a, tables[a][Index(c, iova, LAST - 1)].addr, iova, n)
      modifies this`tables, this`pool, this`place
      ensures var t := old(tables)[a][Index(c, iova, LAST - 1)].addr;
              && t in old(tables) && |old(tables)[t]| == c.e
              && State() == UnmapLastOf(c, old(State()), a, Index(c, iova, LAST - 1), t, Index(c, iova, LAST), n)
    {
      ghost var h := State();
      var i := Index(c, iova, LAST - 1);
      var t := tables[a][i].addr;
      LastAtFacts(c, h, a, t, iova, n);
      ChildPrev(c, h, a, i);
      EraseKeepsParent(c, h, a, i, t, Index(c, iova, LAST), n);
      EraseCounted(t, Index(c, iova, LAST), n, Prev(a, i));
      if tables[a][i].count == 0 {
        tables := tables[a := tables[a][i := Zero]];
        tables := tables - {t};
        pool := pool + {t};
        place := place - {t};
      }
    }

    /** The loop of arm_lpae_split_blk_unmap that fills the new table. */
    method FillParts(blk: nat, prot: nat, size: nat, i: nat, n: nat) returns (ptes: seq<Pte>, count: nat)
      requires i + n <= c.e
      ensures ptes == SplitTable(c, blk, prot, size, i, n) && count == c.e - n
    {
      ptes, count := ZeroTable(c), 0;
      var k := 0;
      while k < c.e
        invariant k <= c.e && |ptes| == c.e && count == k - Upto(i, n, k)
        invariant forall j :: 0 <= j < c.e ==>
                    ptes[j] == if j < k then SplitTable(c, blk, prot, size, i, n)[j] else Zero
      {
        SplitTableNext(c, blk, prot, size, i, n, ptes, k);
        if !(i <= k < i + n) {
          ptes := ptes[k := Leaf(Nth(blk, k, size), prot)];
          count := count + 1;
        }
        k := k + 1;
      }
    }

    /** arm_lpae_split_blk_unmap: the block that holds iova becomes a table of smaller blocks,
        without n of them from iova on. */
    method SplitBlock(a: nat, l: nat, iova: nat, n: nat) returns (ok: bool, t: nat)
      requires Valid() && a in tables && place[a].lvl == l < LAST && Covers(c, State(), a, iova)
      requires Index(c, iova, l) < |tables[a]| && tables[a][Index(c, iova, l)].Leaf?
      requires Index(c, iova, l + 1) + n <= c.e && (n > 0 ==> Aligned(c, iova, l + 1))
      modifies this`tables, this`pool, this`place
      ensures ok <==> old(pool) != {}
      ensures ok ==> CanSplit(c, old(State()), a, iova, n, t) && State() == SplitOf(c, old(State()), a, iova, n, t)
      ensures !ok ==> State() == old(State())
    {
      if pool == {} {
        return false, 0;
      }
      ghost var h := State();
      t :| t in pool;
      var p := tables[a][Index(c, iova, l)];
      var ptes, count := FillParts(p.phys, p.prot, Block(c, l + 1), Index(c, iova, l + 1), n);
      pool := pool - {t};
      tables := tables[a := tables[a][Index(c, iova, l) := Table(t, count % COUNTS)]][t := ptes];
      place := place[t := Place(l + 1, Child(c, place[a].num, Index(c, iova, l)), a)];
      ok := true;
    }

    /** The branch of __arm_lpae_unmap at the level of the request. */
    method UnmapBlocks(a: nat, l: nat, iova: nat, pgcount: nat) returns (n: nat)
      requires Valid() && a in tables && place[a].lvl == l <= LAST && (l == LAST ==> a == c.root)
      requires Covers(c, State(), a, iova) && Aligned(c, iova, l)
      requires a == c.root ==> Index(c, iova, l) + pgcount <= c.r
      modifies this`tables, this`pool, this`place
      ensures UnmapOutcome(c, old(State()), State(), l, iova, l, pgcount, n)
    {
      var m := Min(pgcount, c.e - Index(c, iova, l));
      RunFits(c, State(), a, iova, pgcount, m);
      n := UnmapHere(a, l, iova, m);
      assert !SplitsWhole(c, old(State()), iova, l, pgcount);
    }

    /** arm_lpae_split_blk_unmap where the parts are of the size of the request. */
    method SplitOut(a: nat, l: nat, iova: nat, pgcount: nat) returns (n: nat)
      requires Valid() && a in tables && place[a].lvl == l < LAST && Covers(c, State(), a, iova)
      requires Index(c, iova, l) < |tables[a]| && tables[a][Index(c, iova, l)].Leaf?
      requires Aligned(c, iova, l + 1) && pgcount > 0
      modifies this`tables, this`pool, this`place
      ensures UnmapOutcome(c, old(State()), State(), l, iova, l + 1, pgcount, n)
    {
      ghost var h := State();
      n := Min(pgcount, c.e - Index(c, iova, l + 1));
      var ok, t := SplitBlock(a, l, iova, n);
      if ok {
        OutcomeSplitOut(c, h, a, iova, pgcount, n, t);
      } else {
        n := 0;
        OutcomeNothing(c, h, l, iova, l + 1, pgcount);
      }
    }

    /** arm_lpae_split_blk_unmap where the parts are larger than the request: all are kept for now. */
    method SplitWhole(a: nat, l: nat, iova: nat) returns (ok: bool, t: nat)
      requires Valid() && a in tables && place[a].lvl == l < LAST && Covers(c, State(), a, iova)
      requires Index(c, iova, l) < |tables[a]| && tables[a][Index(c, iova, l)].Leaf?
      modifies this`tables, this`pool, this`place
      ensures Valid() && SamePages(old(State()), State()) && Unmapped(c, old(State()), State(), iova, Span(c, 0, l + 1))
      ensures SamePlaces(old(State()), State()) && NewAt(old(State()), State(), l + 1)
      ensures l + 1 < LAST ==> SameEmpty(c, old(State()), State())
      ensures ok ==>
                && t in tables && place[t].lvl == l + 1 && t != c.root && Covers(c, State(), t, iova)
                && |pool| == |old(pool)| - 1
      ensures !ok ==> State() == old(State()) && pool == {}
    {
      ghost var h := State();
      ok, t := SplitBlock(a, l, iova, 0);
      if ok {
        SplitUnmaps(c, h, a, iova, 0, t);
        SplitKeeps(c, h, a, iova, 0, t);
        SplitLeads(c, h, a, iova, t);
        SplitEmpty(c, h, a, iova, 0, t);
      }
    }

    /** The branch of __arm_lpae_unmap for a block larger than the request: the block is split, and
        the unmapping goes on in the new table if it is still too coarse. */
    method UnmapSplit(a: nat, l: nat, iova: nat, k: nat, pgcount: nat) returns (n: nat)
      requires Valid() && a in tables && place[a].lvl == l < k <= LAST && Covers(c, State(), a, iova)
      requires InRange(c, iova)
      requires Index(c, iova, l) < |tables[a]| && tables[a][Index(c, iova, l)].Leaf?
      requires Aligned(c, iova, k) && pgcount > 0
      modifies this`tables, this`pool, this`place
      ensures UnmapOutcome(c, old(State()), State(), l, iova, k, pgcount, n)
      decreases LAST - l, 0
    {
      if k == l + 1 {
        n := SplitOut(a, l, iova, pgcount);
        return;
      }
      ghost var h := State();
      var ok, t := SplitWhole(a, l, iova);
      if !ok {
        OutcomeNothing(c, h, l, iova, k, pgcount);
        return 0;
      }
      ghost var h1 := State();
      SafeWithoutTable(c, h, a, iova, pgcount);
      SplitAbove(c, h, h1, iova, l + 1, k, pgcount);
      n := UnmapAt(t, l + 1, iova, k, pgcount);
      OutcomeAfterSplit(c, h, h1, State(), l, iova, k, pgcount, n);
    }

    /** __arm_lpae_unmap: n blocks of level k from iova on, reached from table a of level l. */
    method UnmapAt(a: nat, l: nat, iova: nat, k: nat, pgcount: nat) returns (n: nat)
      requires Valid() && a in tables && place[a].lvl == l <= k <= LAST && (l == LAST ==> a == c.root)
      requires Covers(c, State(), a, iova) && InRange(c, iova) && Aligned(c, iova, k) && pgcount > 0
      requires a == c.root && l == k ==> Index(c, iova, k) + pgcount <= c.r
      modifies this`tables, this`pool, this`place
      ensures UnmapResult(c, old(State()), State(), l, iova, k, pgcount, n)
      decreases LAST - l, 2
    {
      IndexFits(c, State(), a, iova);
      if l < k && tables[a][Index(c, iova, l)].Table? {
        n := UnmapBelow(a, l, iova, k, pgcount);
      } else {
        ghost var h := State();
        assert EntryFits(c, h, a, Index(c, iova, l));
        if k == LAST {
          SafeWithoutTable(c, h, a, iova, pgcount);
        }
        n := UnmapHereOrSplit(a, l, iova, k, pgcount);
      }
    }

    /** The branches of __arm_lpae_unmap that end at this table. */
    method UnmapHereOrSplit(a: nat, l: nat, iova: nat, k: nat, pgcount: nat) returns (n: nat)
      requires Valid() && a in tables && place[a].lvl == l <= k <= LAST && (l == LAST ==> a == c.root)
      requires Covers(c, State(), a, iova) && InRange(c, iova) && Aligned(c, iova, k) && pgcount > 0
      requires a == c.root && l == k ==> Index(c, iova, k) + pgcount <= c.r
      requires Index(c, iova, l) < |tables[a]| && (l < k ==> !tables[a][Index(c, iova, l)].Table?)
      modifies this`tables, this`pool, this`place
      ensures UnmapOutcome(c, old(State()), State(), l, iova, k, pgcount, n)
      decreases LAST - l, 1
    {
      if tables[a][Index(c, iova, l)].Zero? {
        ZeroFaults(c, State(), a, iova);
        OutcomeNothing(c, State(), l, iova, k, pgcount);
        n := 0;
      } else if l == k {
        n := UnmapBlocks(a, l, iova, pgcount);
      } else {
        n := UnmapSplit(a, l, iova, k, pgcount);
      }
    }

    method UnmapLastAt(a: nat, iova: nat, pgcount: nat) returns (n: nat)
      requires Valid() && a in tables && place[a].lvl == LAST - 1 && Covers(c, State(), a, iova)
      requires Index(c, iova, LAST - 1) < |tables[a]| && tables[a][Index(c, iova, LAST - 1)].Table?
      requires pgcount > 0
      modifies this`tables, this`pool, this`place
      ensures UnmapResult(c, old(State()), State(), LAST - 1, iova, LAST, pgcount, n)
    {
      ghost var h := State();
      ChildCovers(c, h, a, iova);
      ChildPrev(c, h, a, Index(c, iova, LAST - 1));
      n := UnmapLast(a, iova, pgcount);
      OutcomeLast(c, h, State(), h.tables[a][Index(c, iova, LAST - 1)].addr, iova, pgcount, n);
    }

    /** The remaining branches of __arm_lpae_unmap: the entry points to a table. */
    method UnmapBelow(a: nat, l: nat, iova: nat, k: nat, pgcount: nat) returns (n: nat)
      requires Valid() && a in tables && place[a].lvl == l < k <= LAST && Covers(c, State(), a, iova)
      requires InRange(c, iova)
      requires Index(c, iova, l) < |tables[a]| && tables[a][Index(c, iova, l)].Table?
      requires Aligned(c, iova, k) && pgcount > 0
      modifies this`tables, this`pool, this`place
      ensures UnmapResult(c, old(State()), State(), l, iova, k, pgcount, n)
      decreases LAST - l, 0
    {
      if l == LAST - 1 {
        n := UnmapLastAt(a, iova, pgcount);
        return;
      }
      ghost var h := State();
      var t := tables[a][Index(c, iova, l)].addr;
      ChildCovers(c, h, a, iova);
      ChildPrev(c, h, a, Index(c, iova, l));
      n := UnmapAt(t, l + 1, iova, k, pgcount);
      OutcomeFromBelow(c, h, State(), l, iova, k, pgcount, n);
    }

    /** qcom_arm_lpae_unmap_pages, for blocks of level k: the tables are in order and exactly what is
        reported is unmapped, if and only if the pages of a last-level table that are asked for count
        out right. */
    method UnmapPages(iova: nat, k: nat, pgcount: nat) returns (unmapped: nat)
      requires Valid() && c.s <= k <= LAST && Aligned(c, iova, k)
      requires k == c.s ==> Region(c, iova, k) + pgcount <= c.r
      modifies this`tables, this`pool, this`place
      ensures pgcount == 0 || !InRange(c, iova) ==> unmapped == 0 && State() == old(State())
      ensures pgcount > 0 && InRange(c, iova) ==>
                && (Valid() && Unmapped(c, old(State()), State(), iova, unmapped) <==>
                      k < LAST || SafeToUnmap(c, old(State()), iova, pgcount))
                && exists n :: unmapped == Span(c, n, k)
                     && UnmapResult(c, old(State()), State(), c.s, iova, k, pgcount, n)
      ensures NoneEmpty(c, old(State())) && (k == LAST ==> SafeToUnmap(c, old(State()), iova, pgcount)) ==>
                (NoneEmpty(c, State()) <==> !(SplitsWhole(c, old(State()), iova, k, pgcount) && unmapped > 0))
      ensures NoneEmpty(c, old(State())) && (k == LAST ==> SafeToUnmap(c, old(State()), iova, pgcount)) ==>
                |old(pool)| >= LAST - c.s ==>
                  (NoneEmpty(c, State()) <==> !SplitsWhole(c, old(State()), iova, k, pgcount))
    {
      if pgcount == 0 || !InRange(c, iova) {
        return 0;
      }
      ghost var h := State();
      RootCovers(c, h, iova);
      var n := UnmapAt(c.root, c.s, iova, k, pgcount);
      assert k == LAST ==> Span(c, n, k) == n;
      assert NoneEmpty(c, h) ==> (NoneEmpty(c, State()) <==> NoNewEmpty(c, h, State()));
      unmapped := Span(c, n, k);
      assert Span(c, 0, k) == 0;
    }
  }

  /** A new table for NextTable. */
  lemma {:induction false} NewTableStep(c: Config, h: Heap, a: nat, i: nat, t: nat)
    requires Inv(c, h) && a in h.tables && h.place[a].lvl < LAST && i < |h.tables[a]| && i < c.e && h.tables[a][i].Zero?
    requires t in h.pool
    ensures NextStep(c, h, Install(c, h, a, i, t, ZeroTable(c), 0), h.place[a].lvl, t)
  {
    var h1 := Install(c, h, a, i, t, ZeroTable(c), 0);
    InstallEmptyStep(c, h, a, i, t);
    forall b | EmptyLast(c, h1, b) && b != t
      ensures EmptyLast(c, h, b)
    {
      InstallEmptyOnly(c, h, a, i, t, ZeroTable(c), 0, b);
    }
  }

  /** If a run of entries is not unused, one of its addresses is in use. */
  lemma {:induction false} UsedRun(c: Config, h: Heap, a: nat, iova: nat, n: nat)
    requires Inv(c, h) && EntriesFor(c, h, a, iova, n) && !AllZero(h.tables[a], Index(c, iova, h.place[a].lvl), n)
    ensures InTheWay(c, h, iova, Span(c, n, h.place[a].lvl), h.place[a].lvl)
  {
    var l := h.place[a].lvl;
    var i := Index(c, iova, l);
    var j :| i <= j < i + n && !h.tables[a][j].Zero?;
    NextEntryFor(c, h, h, a, iova, n, j - i);
    var x := iova + Span(c, j - i, l);
    UsedEntry(c, h, a, x);
    AlignedOff(c, iova, l);
    RegionAt(c, iova, l, j - i);
    RegionRange(c, iova, l, n, x);
  }

  lemma {:induction false} OutcomeNoTable(
    c: Config, h: Heap, a: nat, iova: nat, n: nat, paddr: nat, k: nat, prot: nat, r: MapResult)
    requires Inv(c, h) && a in h.tables && Covers(c, h, a, iova) && h.place[a].lvl < k <= LAST && n > 0
    requires r.Exists? || r.NoMemory?
    requires r.Exists? ==>
               && Index(c, iova, h.place[a].lvl) < |h.tables[a]| && h.tables[a][Index(c, iova, h.place[a].lvl)].Leaf?
    requires r.NoMemory? ==> h.pool == {}
    ensures MapOutcome(c, h, h, h.place[a].lvl, iova, Span(c, n, k), paddr, k, prot, r)
  {
    if r.Exists? {
      UsedBlock(c, h, a, iova, k);
      MulMono(1, n, Block(c, k));
    }
  }

  lemma {:induction false} OutcomeLast(c: Config, h: Heap, h': Heap, t: nat, iova: nat, pgcount: nat, n: nat)
    requires Inv(c, h) && LastTable(c, h, t, iova) && n == Min(pgcount, c.e - Index(c, iova, LAST))
    requires Inv(c, h') && Unmapped(c, h, h', iova, n) <==> CountsOut(c, h, iova, n)
    requires CountsOut(c, h, iova, n) ==> SamePages(h, h') && NoNewEmpty(c, h, h')
    ensures UnmapResult(c, h, h', LAST - 1, iova, LAST, pgcount, n)
  {
    assert Span(c, n, LAST) == n;
    assert !SplitsWhole(c, h, iova, LAST, pgcount);
    assert SafeToUnmap(c, h, iova, pgcount) <==> CountsOut(c, h, iova, n);
  }

  lemma {:induction false} OutcomeFromBelow(
    c: Config, h: Heap, h': Heap, l: nat, iova: nat, k: nat, pgcount: nat, n: nat)
    requires l < LAST && UnmapResult(c, h, h', l + 1, iova, k, pgcount, n)
    ensures UnmapResult(c, h, h', l, iova, k, pgcount, n)
  {
  }

  /** Splitting parts of the size of the request out of a block. */
  lemma {:induction false} OutcomeSplitOut(c: Config, h: Heap, a: nat, iova: nat, pgcount: nat, n: nat, t: nat)
    requires CanSplit(c, h, a, iova, n, t) && pgcount > 0 && n == Min(pgcount, c.e - Index(c, iova, h.place[a].lvl + 1))
    ensures UnmapOutcome(c, h, SplitOf(c, h, a, iova, n, t), h.place[a].lvl, iova, h.place[a].lvl + 1, pgcount, n)
  {
    SplitUnmaps(c, h, a, iova, n, t);
    SplitKeeps(c, h, a, iova, n, t);
    EmptyAfterSplitOut(c, h, a, iova, pgcount, n, t);
  }

  lemma {:induction false} EmptyAfterSplitOut(c: Config, h: Heap, a: nat, iova: nat, pgcount: nat, n: nat, t: nat)
    requires CanSplit(c, h, a, iova, n, t) && pgcount > 0 && n == Min(pgcount, c.e - Index(c, iova, h.place[a].lvl + 1))
    ensures NoNewEmpty(c, h, SplitOf(c, h, a, iova, n, t)) <==>
            !(SplitsWhole(c, h, iova, h.place[a].lvl + 1, pgcount) && n > 0)
  {
    SplitEmpty(c, h, a, iova, n, t);
    CoversInRange(c, h, a, iova);
    WalkReaches(c, h, a, iova);
    SafeWithoutTable(c, h, a, iova, pgcount);
  }

  lemma {:induction false} NextEntryFor(c: Config, h0: Heap, h: Heap, a: nat, iova: nat, n: nat, j: nat)
    requires Inv(c, h0) && EntriesFor(c, h0, a, iova, n) && j < n
    requires Inv(c, h) && a in h.tables && a in h.place && h.place[a] == h0.place[a] && |h.tables[a]| == |h0.tables[a]|
    ensures var l := h.place[a].lvl;
            var x := iova + Span(c, j, l);
            EntriesFor(c, h, a, x, 1) && Index(c, x, l) == Index(c, iova, l) + j
  {
    assert |h.tables[a]| <= c.e;
    NextEntry(c, h, a, iova, j);
  }
}
