/** The page table of drivers/iommu/io-pgtable-fast.c: three levels for the hardware, and one
    virtually contiguous array of last-level entries for the driver. */
module FastPgtable {

  const SZ_4K := 0x1000
  const SZ_2M := 0x20_0000
  const SZ_1G := 0x4000_0000
  const SZ_4G := 0x1_0000_0000
  const PTRS := 512

  /** A 64-bit entry: neither kind of descriptor, the address of a table page, or a page mapping.
      `Other` covers zero and the marker left by an unmap that defers TLB invalidation. */
  datatype Entry = Other | Table(page: nat) | Leaf(phys: nat, prot: nat)

  type Page = seq<Entry>

  function ZeroPage(): Page {
    seq(PTRS, _ => Other)
  }

  predicate WellSized(mem: seq<Page>) {
    |mem| > 0 && forall k :: 0 <= k < |mem| ==> |mem[k]| == PTRS
  }

  // ----- the hardware walk --------------------------------------------------------------------

  datatype Slot = NoSlot | Slot(page: nat, index: nat)

  /** Where the walk from the pgd (page 0) looks for the last-level entry of an address below 4G. */
  function WalkSlot(mem: seq<Page>, iova: nat): Slot
    requires WellSized(mem) && iova < SZ_4G
  {
    var pgd := mem[0][iova / SZ_1G];
    if !pgd.Table? || pgd.page >= |mem| then NoSlot
    else
      var pud := mem[pgd.page][iova / SZ_2M % PTRS];
      if !pud.Table? || pud.page >= |mem| then NoSlot
      else Slot(pud.page, iova / SZ_4K % PTRS)
  }

  function Lookup(mem: seq<Page>, s: Slot): Entry
    requires WellSized(mem) && (s.Slot? ==> s.page < |mem| && s.index < PTRS)
  {
    if s.NoSlot? then Other else mem[s.page][s.index]
  }

  datatype Translation = Fault | Phys(addr: nat)

  /** av8l_fast_iova_to_phys */
  function IovaToPhys(mem: seq<Page>, iova: nat): Translation
    requires WellSized(mem) && iova < SZ_4G
  {
    var e := Lookup(mem, WalkSlot(mem, iova));
    if e.Leaf? then Phys(e.phys + iova % SZ_4K) else Fault
  }

  // ----- the flat view ----------------------------------------------------------------------------

  /** iopte_pmd_offset: the offset of an address's entry in the contiguous array. */
  function Offset(base: nat, iova: nat): nat
    requires base <= iova
  {
    (iova - base / SZ_2M * SZ_2M) / SZ_4K
  }

  /** The array starts at page `first` of the allocated pages. */
  function FlatSlot(first: nat, offset: nat): Slot {
    Slot(first + offset / PTRS, offset % PTRS)
  }

  /** The tables for [base, end): the upper levels are in place, and their entries point at the
      pages of the array in order. */
  predicate Populated(mem: seq<Page>, base: nat, end: nat, first: nat) {
    && WellSized(mem)
    && base < end <= SZ_4G
    && first == 2 + (end - 1) / SZ_1G - base / SZ_1G
    && |mem| == first + 1 + (end - 1) / SZ_2M - base / SZ_2M
    && (forall g :: base / SZ_1G <= g <= (end - 1) / SZ_1G ==> mem[0][g] == Table(1 + g - base / SZ_1G))
    && (forall t :: base / SZ_2M <= t <= (end - 1) / SZ_2M ==> PudEntry(mem, base, first, t))
  }

  /** The second-level entry for the t-th 2M region. */
  predicate PudEntry(mem: seq<Page>, base: nat, first: nat, t: nat) {
    && base / SZ_1G <= t / PTRS && 1 + t / PTRS - base / SZ_1G < |mem| && base / SZ_2M <= t
    && |mem[1 + t / PTRS - base / SZ_1G]| == PTRS
    && mem[1 + t / PTRS - base / SZ_1G][t % PTRS] == Table(first + t - base / SZ_2M)
  }

  lemma IndexArithmetic(iova: nat)
    ensures iova / SZ_2M / PTRS == iova / SZ_1G
    ensures iova / SZ_4K / PTRS == iova / SZ_2M
  {
  }

  lemma OffsetArithmetic(base: nat, iova: nat)
    requires base <= iova
    ensures Offset(base, iova) / PTRS == iova / SZ_2M - base / SZ_2M
    ensures Offset(base, iova) % PTRS == iova / SZ_4K % PTRS
    ensures Offset(base, iova) == iova / SZ_4K - base / SZ_2M * PTRS
  {
    assert Offset(base, iova) == iova / SZ_4K - base / SZ_2M * PTRS;
  }

  /** The entry found by walking three levels is the entry at the flat offset. */
  lemma FlatSlotIsWalkSlot(mem: seq<Page>, base: nat, end: nat, first: nat, iova: nat)
    requires Populated(mem, base, end, first) && base <= iova < end
    ensures WalkSlot(mem, iova) == FlatSlot(first, Offset(base, iova))
    ensures FlatSlot(first, Offset(base, iova)).page < |mem|
  {
    IndexArithmetic(iova);
    OffsetArithmetic(base, iova);
    assert PudEntry(mem, base, first, iova / SZ_2M);
  }

  // ----- building the tables --------------------------------------------------------------------------

  /** pud_next and pmd_next: the next boundary of the given size, but not beyond the end. */
  function NextBoundary(size: nat, addr: nat, end: nat): nat
    requires size > 0
  {
    var boundary := (addr / size + 1) * size;
    if boundary < end then boundary else end
  }

  /** How many regions of the given size have been passed when the cursor stands at `addr`. */
  predicate Passed(size: nat, addr: nat, end: nat, index: nat)
    requires size > 0
  {
    if addr < end then index == addr / size else end > 0 && index == (end - 1) / size + 1
  }

  lemma PassedNext1G(addr: nat, end: nat, index: nat)
    requires addr < end && Passed(SZ_1G, addr, end, index)
    ensures addr < NextBoundary(SZ_1G, addr, end) <= end
    ensures Passed(SZ_1G, NextBoundary(SZ_1G, addr, end), end, index + 1)
  {
  }

  lemma PassedNext2M(addr: nat, end: nat, index: nat)
    requires addr < end && Passed(SZ_2M, addr, end, index)
    ensures addr < NextBoundary(SZ_2M, addr, end) <= end
    ensures Passed(SZ_2M, NextBoundary(SZ_2M, addr, end), end, index + 1)
  {
  }

  /** The pages of the array are zero. */
  predicate EmptyFrom(mem: seq<Page>, first: nat) {
    forall k :: first <= k < |mem| ==> mem[k] == ZeroPage()
  }

  /** The first loop of av8l_fast_prepopulate_pgtables: one second-level page per 1G. */
  method PopulatePuds(base: nat, end: nat) returns (mem: seq<Page>)
    requires base < end <= SZ_4G
    ensures WellSized(mem) && |mem| == 2 + (end - 1) / SZ_1G - base / SZ_1G
    ensures forall g :: base / SZ_1G <= g <= (end - 1) / SZ_1G ==> mem[0][g] == Table(1 + g - base / SZ_1G)
  {
    mem := [ZeroPage()];
    var i: nat, pud := base / SZ_1G % 4, base;
    while pud < end
      invariant base <= pud <= end && Passed(SZ_1G, pud, end, i)
      invariant base / SZ_1G <= i && |mem| == 1 + i - base / SZ_1G && WellSized(mem)
      invariant forall g :: base / SZ_1G <= g < i ==> g < PTRS && mem[0][g] == Table(1 + g - base / SZ_1G)
      decreases end - pud
    {
      PassedNext1G(pud, end, i);
      mem := mem[0 := mem[0][i := Table(|mem|)]] + [ZeroPage()];
      i, pud := i + 1, NextBoundary(SZ_1G, pud, end);
    }
  }

  /** The second loop, for one second-level page: one last-level page per 2M. */
  method PopulatePmds(mem0: seq<Page>, base: nat, first: nat, i: nat, pud: nat, next: nat) returns (mem: seq<Page>)
    requires WellSized(mem0) && base <= pud < next <= SZ_4G && i == pud / SZ_1G == (next - 1) / SZ_1G
    requires first <= |mem0| && 0 < 1 + i - base / SZ_1G < first
    requires |mem0| == first + pud / SZ_2M - base / SZ_2M
    requires (forall t :: base / SZ_2M <= t < pud / SZ_2M ==> PudEntry(mem0, base, first, t)) && EmptyFrom(mem0, first)
    ensures EmptyFrom(mem, first) && WellSized(mem) && |mem| == first + (next - 1) / SZ_2M + 1 - base / SZ_2M
    ensures mem[0] == mem0[0]
    ensures forall t :: base / SZ_2M <= t <= (next - 1) / SZ_2M ==> PudEntry(mem, base, first, t)
  {
    mem := mem0;
    var j, pmd := pud / SZ_2M % PTRS, pud;
    ghost var t: nat := pud / SZ_2M;
    while pmd < next
      invariant pud <= pmd <= next && Passed(SZ_2M, pmd, next, t)
      invariant j == t - i * PTRS && pud / SZ_2M <= t
      invariant WellSized(mem) && |mem| == first + t - base / SZ_2M && mem[0] == mem0[0]
      invariant (forall u :: base / SZ_2M <= u < t ==> PudEntry(mem, base, first, u)) && EmptyFrom(mem, first)
      decreases next - pmd
    {
      PassedNext2M(pmd, next, t);
      var p := 1 + i - base / SZ_1G;
      ghost var before := mem;
      mem := mem[p := mem[p][j := Table(|mem|)]] + [ZeroPage()];
      PudEntriesGrow(before, mem, base, first, t, p, j);
      j, pmd := j + 1, NextBoundary(SZ_2M, pmd, next);
      t := t + 1;
    }
  }

  lemma PudEntriesGrow(before: seq<Page>, mem: seq<Page>, base: nat, first: nat, t: nat, p: nat, j: nat)
    requires WellSized(before) && base / SZ_1G <= t / PTRS && base / SZ_2M <= t
    requires p == 1 + t / PTRS - base / SZ_1G && p < |before| && j == t % PTRS
    requires |before| == first + t - base / SZ_2M
    requires mem == before[p := before[p][j := Table(|before|)]] + [ZeroPage()]
    requires forall u :: base / SZ_2M <= u < t ==> PudEntry(before, base, first, u)
    ensures forall u :: base / SZ_2M <= u < t + 1 ==> PudEntry(mem, base, first, u)
  {
    forall u | base / SZ_2M <= u < t
      ensures PudEntry(mem, base, first, u)
    {
      assert PudEntry(before, base, first, u);
      var q := 1 + u / PTRS - base / SZ_1G;
      if q == p {
        assert u % PTRS != j;
      }
    }
  }

  /** av8l_fast_prepopulate_pgtables: `first` is the number of the first page of the array. */
  method Prepopulate(base: nat, end: nat) returns (mem: seq<Page>, first: nat)
    requires base < end <= SZ_4G
    ensures Populated(mem, base, end, first) && EmptyFrom(mem, first)
  {
    mem := PopulatePuds(base, end);
    first := |mem|;
    var i: nat, pud := base / SZ_1G % 4, base;
    while pud < end
      invariant base <= pud <= end && Passed(SZ_1G, pud, end, i) && base / SZ_1G <= i
      invariant pud < end ==> pud == base || pud % SZ_1G == 0
      invariant WellSized(mem) && EmptyFrom(mem, first)
      invariant |mem| == first + (if pud < end then pud / SZ_2M else (end - 1) / SZ_2M + 1) - base / SZ_2M
      invariant forall g :: base / SZ_1G <= g <= (end - 1) / SZ_1G ==> mem[0][g] == Table(1 + g - base / SZ_1G)
      invariant forall t :: base / SZ_2M <= t < base / SZ_2M + |mem| - first ==> PudEntry(mem, base, first, t)
      decreases end - pud
    {
      PassedNext1G(pud, end, i);
      var next := NextBoundary(SZ_1G, pud, end);
      mem := PopulatePmds(mem, base, first, i, pud, next);
      i, pud := i + 1, next;
    }
  }

  // ----- mapping and unmapping through the flat view ----------------------------------------------------

  function Write(mem: seq<Page>, s: Slot, e: Entry): (r: seq<Page>)
    requires WellSized(mem) && s.Slot? && s.page < |mem| && s.index < PTRS
    ensures WellSized(r) && |r| == |mem|
  {
    mem[s.page := mem[s.page][s.index := e]]
  }

  /** The entry of the k-th page of the array's address range. */
  function FlatEntry(mem: seq<Page>, first: nat, k: nat): Entry
    requires WellSized(mem) && first + k / PTRS < |mem|
  {
    mem[first + k / PTRS][k % PTRS]
  }

  /** Number of entries in the array. */
  function Entries(base: nat, end: nat): nat
    requires base < end
  {
    ((end - 1) / SZ_2M + 1 - base / SZ_2M) * PTRS
  }

  /** Writing one entry of the array changes that entry only and leaves the upper levels alone. */
  lemma WriteFlat(mem: seq<Page>, base: nat, end: nat, first: nat, k: nat, e: Entry)
    requires Populated(mem, base, end, first) && k < Entries(base, end)
    ensures FlatSlot(first, k).page < |mem|
    ensures var mem' := Write(mem, FlatSlot(first, k), e);
            && Populated(mem', base, end, first)
            && (forall j :: 0 <= j < Entries(base, end) ==>
                  && first + j / PTRS < |mem'|
                  && FlatEntry(mem', first, j) == if j == k then e else FlatEntry(mem, first, j))
  {
    var mem' := Write(mem, FlatSlot(first, k), e);
    forall t | base / SZ_2M <= t <= (end - 1) / SZ_2M
      ensures PudEntry(mem', base, first, t)
    {
      assert PudEntry(mem, base, first, t);
    }
  }

  lemma RangeInArray(base: nat, end: nat, iova: nat, size: nat)
    requires base < end && base <= iova && iova / SZ_4K * SZ_4K + size <= end
    ensures Offset(base, iova) + size / SZ_4K <= Entries(base, end)
  {
    OffsetArithmetic(base, iova);
    PagesUpTo(iova / SZ_4K, size, end);
  }

  lemma PagesUpTo(page: nat, size: nat, end: nat)
    requires 0 < end && page * SZ_4K + size <= end
    ensures page + size / SZ_4K <= ((end - 1) / SZ_2M + 1) * PTRS
  {
    assert page + size / SZ_4K <= end / SZ_4K;
  }

  lemma OffsetInArray(base: nat, end: nat, iova: nat)
    requires base <= iova < end
    ensures Offset(base, iova) < Entries(base, end)
  {
    OffsetArithmetic(base, iova);
  }

  /** n entries of the array from offset k have been rewritten. */
  ghost predicate Rewritten(
    m: seq<Page>, m': seq<Page>, base: nat, end: nat, first: nat, k: nat, n: nat, entry: nat -> Entry)
  {
    && Populated(m, base, end, first) && Populated(m', base, end, first)
    && forall j :: 0 <= j < Entries(base, end) ==>
         && first + j / PTRS < |m| && first + j / PTRS < |m'|
         && FlatEntry(m', first, j) == if k <= j < k + n then entry(j - k) else FlatEntry(m, first, j)
  }

  /** And one more. */
  lemma RewriteOne(m: seq<Page>, m': seq<Page>, base: nat, end: nat, first: nat, k: nat, i: nat, entry: nat -> Entry)
    requires Rewritten(m, m', base, end, first, k, i, entry) && k + i < Entries(base, end)
    ensures FlatSlot(first, k + i).page < |m'|
    ensures Rewritten(m, Write(m', FlatSlot(first, k + i), entry(i)), base, end, first, k, i + 1, entry)
  {
    WriteFlat(m', base, end, first, k + i, entry(i));
  }

  /** What the hardware then finds for any address. */
  lemma WalkAfterRewrite(m: seq<Page>, m': seq<Page>, base: nat, end: nat, first: nat, iova: nat, n: nat,
                         entry: nat -> Entry, a: nat)
    requires base <= iova && base <= a < end
    requires Rewritten(m, m', base, end, first, Offset(base, iova), n, entry)
    ensures Walkable(m, a) && Walkable(m', a)
    ensures var page := a / SZ_4K - iova / SZ_4K;
            Lookup(m', WalkSlot(m', a)) == if 0 <= page < n then entry(page) else Lookup(m, WalkSlot(m, a))
  {
    EntryIsFlat(m, base, end, first, a);
    EntryIsFlat(m', base, end, first, a);
    OffsetArithmetic(base, iova);
    OffsetArithmetic(base, a);
  }

  /** The walk ends inside the tables. */
  predicate Walkable(mem: seq<Page>, a: nat) {
    && WellSized(mem) && a < SZ_4G
    && (WalkSlot(mem, a).Slot? ==> WalkSlot(mem, a).page < |mem| && WalkSlot(mem, a).index < PTRS)
  }

  datatype MapResult = MapOk | Invalid

  class FastTable {
    const base: nat
    const end: nat
    const first: nat
    var mem: seq<Page>

    ghost predicate Valid()
      reads this
    {
      Populated(mem, base, end, first)
    }

    /** The entry that the hardware finds for an address. */
    ghost function EntryAt(iova: nat): Entry
      requires Valid() && base <= iova < end
      reads this
    {
      FlatSlotIsWalkSlot(mem, base, end, first, iova);
      Lookup(mem, WalkSlot(mem, iova))
    }

    constructor (base: nat, end: nat)
      requires base < end <= SZ_4G
      ensures Valid() && this.base == base && this.end == end
      ensures forall a :: base <= a < end ==> EntryAt(a) == Other
    {
      this.base, this.end := base, end;
      var m, f := Prepopulate(base, end);
      mem, first := m, f;
      new;
      forall a | base <= a < end
        ensures EntryAt(a) == Other
      {
        FlatSlotIsWalkSlot(mem, base, end, first, a);
      }
    }

    /** Write `n` entries of the array from offset k, each given by its position. */
    method Fill(k: nat, n: nat, entry: nat -> Entry)
      requires Valid() && k + n <= Entries(base, end)
      modifies this
      ensures Valid() && Rewritten(old(mem), mem, base, end, first, k, n, entry)
    {
      ghost var m := mem;
      var i := 0;
      assert Rewritten(m, mem, base, end, first, k, 0, entry);
      while i < n
        invariant 0 <= i <= n && Valid()
        invariant Rewritten(m, mem, base, end, first, k, i, entry)
      {
        RewriteOne(m, mem, base, end, first, k, i, entry);
        mem := Write(mem, FlatSlot(first, k + i), entry(i));
        i := i + 1;
      }
    }

    /** av8l_fast_map */
    method Map(iova: nat, paddr: nat, size: nat, prot: nat) returns (r: MapResult)
      requires Valid() && iova / SZ_4K * SZ_4K + size <= end
      modifies this
      ensures Valid()
      ensures r.Invalid? <==> iova < base
      ensures r.Invalid? ==> mem == old(mem)
      ensures r.MapOk? ==> forall a :: base <= a < end ==>
                var page := a / SZ_4K - iova / SZ_4K;
                EntryAt(a) == if 0 <= page < size / SZ_4K
                              then Leaf(paddr / SZ_4K * SZ_4K + page * SZ_4K, prot)
                              else old(EntryAt(a))
    {
      if iova < base {
        return Invalid;
      }
      ghost var m := mem;
      RangeInArray(base, end, iova, size);
      var entry := (i: nat) => Leaf(paddr / SZ_4K * SZ_4K + i * SZ_4K, prot);
      Fill(Offset(base, iova), size / SZ_4K, entry);
      forall a | base <= a < end
        ensures var page := a / SZ_4K - iova / SZ_4K;
                EntryAt(a) == if 0 <= page < size / SZ_4K
                              then Leaf(paddr / SZ_4K * SZ_4K + page * SZ_4K, prot)
                              else old(EntryAt(a))
      {
        WalkAfterRewrite(m, mem, base, end, first, iova, size / SZ_4K, entry, a);
      }
      return MapOk;
    }

    /** __av8l_fast_unmap */
    method Unmap(iova: nat, size: nat) returns (unmapped: nat)
      requires Valid() && iova / SZ_4K * SZ_4K + size <= end
      modifies this
      ensures Valid()
      ensures unmapped == if iova < base then 0 else size
      ensures iova < base ==> mem == old(mem)
      ensures base <= iova ==> forall a :: base <= a < end ==>
                EntryAt(a) == if 0 <= a / SZ_4K - iova / SZ_4K < size / SZ_4K then Other else old(EntryAt(a))
    {
      if iova < base {
        return 0;
      }
      ghost var m := mem;
      RangeInArray(base, end, iova, size);
      Fill(Offset(base, iova), size / SZ_4K, _ => Other);
      forall a | base <= a < end
        ensures EntryAt(a) == if 0 <= a / SZ_4K - iova / SZ_4K < size / SZ_4K then Other else old(EntryAt(a))
      {
        WalkAfterRewrite(m, mem, base, end, first, iova, size / SZ_4K, _ => Other, a);
      }
      return size;
    }
  }

  /** What av8l_fast_iova_to_phys answers after av8l_fast_map: the given memory, at the same distance
      from the start, for the pages that were mapped, and what it answered before for all others. */
  lemma MapThenTranslate(
    m: seq<Page>, m': seq<Page>, base: nat, end: nat, first: nat, iova: nat, paddr: nat, n: nat, prot: nat,
    entry: nat -> Entry, a: nat)
    requires base <= iova && base <= a < end && iova % SZ_4K == 0 && paddr % SZ_4K == 0
    requires forall i: nat :: entry(i) == Leaf(paddr + i * SZ_4K, prot)
    requires Rewritten(m, m', base, end, first, Offset(base, iova), n, entry)
    ensures WellSized(m) && WellSized(m') && a < SZ_4G
    ensures IovaToPhys(m', a) == if iova <= a < iova + n * SZ_4K then Phys(paddr + (a - iova)) else IovaToPhys(m, a)
  {
    WalkAfterRewrite(m, m', base, end, first, iova, n, entry, a);
  }

  lemma EntryIsFlat(mem: seq<Page>, base: nat, end: nat, first: nat, a: nat)
    requires Populated(mem, base, end, first) && base <= a < end
    ensures Offset(base, a) < Entries(base, end) && first + Offset(base, a) / PTRS < |mem|
    ensures WalkSlot(mem, a) == FlatSlot(first, Offset(base, a))
    ensures Lookup(mem, WalkSlot(mem, a)) == FlatEntry(mem, first, Offset(base, a))
  {
    FlatSlotIsWalkSlot(mem, base, end, first, a);
    OffsetInArray(base, end, a);
  }
}
