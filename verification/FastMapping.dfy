/** struct dma_fast_smmu_mapping of drivers/iommu/dma-mapping-fast.c: the IOVA allocator together with
    the page table it hands out addresses of, and the DMA operations on both. */
module FastMapping {
  import opened Arith
  import opened FastIova
  import P = FastPgtable
  import S = ScatterList
  import G = FastSg

  const PAGE := 0x1000

  // ----- the page table as the allocator sees it -----------------------------------------------------

  /** The address of page p of the mapping. */
  function AddressOf(base: nat, p: nat): nat {
    base + p * PAGE
  }

  function PteAt(e: P.Entry): Pte {
    if e.Leaf? then Page(e.phys) else Invalid
  }

  /** What a walk finds for the pages of the mapping. */
  ghost function PtesOf(v: G.View, pages: nat): (r: seq<Pte>)
    ensures |r| == pages && forall p :: 0 <= p < pages ==> r[p] == PteAt(v.entry(AddressOf(v.base, p)))
  {
    seq(pages, p requires 0 <= p < pages => PteAt(v.entry(AddressOf(v.base, p))))
  }

  /** The memory that the entry for page p leads to. */
  ghost function PhysOf(v: G.View): nat -> nat {
    var base, entry := v.base, v.entry;
    (p: nat) => PhysAt(entry(AddressOf(base, p)))
  }

  function PhysAt(e: P.Entry): nat {
    if e.Leaf? then e.phys else 0
  }

  ghost predicate Shaped(v: G.View, pages: nat) {
    v.end == AddressOf(v.base, pages)
  }

  /** Only pages i, ..., i + n - 1 have changed. */
  ghost predicate OnlyPages(v: G.View, v': G.View, i: nat, n: nat) {
    G.Untouched(v, v', AddressOf(v.base, i), AddressOf(v.base, i + n))
  }

  lemma {:induction false} OtherPage(v: G.View, v': G.View, pages: nat, i: nat, n: nat, p: nat)
    requires Shaped(v, pages) && OnlyPages(v, v', i, n) && p < pages && !(i <= p < i + n)
    ensures v'.entry(AddressOf(v.base, p)) == v.entry(AddressOf(v.base, p))
  {
  }

  lemma {:induction false} PagesMapped(d: Domain, v: G.View, v': G.View, i: nat, n: nat)
    requires Sized(d) && Shaped(v, |d.bitmap|) && d.ptes == PtesOf(v, |d.bitmap|) && i + n <= |d.bitmap|
    requires OnlyPages(v, v', i, n) && AllLeaf(v', i, n)
    ensures Map(d, i, n, PhysOf(v')).ptes == PtesOf(v', |d.bitmap|)
  {
    forall p | 0 <= p < |d.bitmap|
      ensures Map(d, i, n, PhysOf(v')).ptes[p] == PtesOf(v', |d.bitmap|)[p]
    {
      if !(i <= p < i + n) {
        OtherPage(v, v', |d.bitmap|, i, n, p);
      }
    }
  }

  lemma {:induction false} PagesUnmapped(d: Domain, v: G.View, v': G.View, i: nat, n: nat)
    requires Sized(d) && Shaped(v, |d.bitmap|) && d.ptes == PtesOf(v, |d.bitmap|) && i + n <= |d.bitmap|
    requires OnlyPages(v, v', i, n) && NoneLeaf(v', i, n)
    ensures Unmap(d, i, n).ptes == PtesOf(v', |d.bitmap|)
  {
    forall p | 0 <= p < |d.bitmap|
      ensures Unmap(d, i, n).ptes[p] == PtesOf(v', |d.bitmap|)[p]
    {
      if !(i <= p < i + n) {
        OtherPage(v, v', |d.bitmap|, i, n, p);
      }
    }
  }

  /** One step after another. */
  ghost predicate TwoSteps(d: Domain, e: Event, e': Event, d': Domain) {
    Enabled(d, e) && Steps(After(d, e), e', d')
  }

  // ----- segment boundaries ---------------------------------------------------------------------------

  function Min(x: nat, y: nat): nat {
    if x <= y then x else y
  }

  /** The base of the mapping is aligned as much as the allocations are that have to stay between two
      boundaries. */
  predicate AlignedBase(base: nat, n: nat, boundary: nat)
    requires boundary > 0
  {
    base % Min(Alignment(n) * PAGE, boundary) == 0
  }

  lemma {:induction false} PowerIsPow2(n: nat, k: nat) returns (j: nat)
    ensures PowerOfTwo(n, Pow2(k)) == Pow2(j)
    decreases if Pow2(k) < n then n - Pow2(k) else 0
  {
    if Pow2(k) >= n {
      j := k;
    } else {
      j := PowerIsPow2(n, k + 1);
    }
  }

  /** Alignments are powers of two, in bytes as in pages. */
  lemma {:induction false} AlignmentIsPow2(n: nat) returns (j: nat)
    ensures Alignment(n) * PAGE == Pow2(j)
  {
    var i := PowerIsPow2(n, 0);
    j := i + 12;
    Pow2Add(i);
  }

  lemma {:induction false} Pow2Add(i: nat)
    ensures Pow2(i) * PAGE == Pow2(i + 12)
    decreases i
  {
    if i > 0 {
      Pow2Add(i - 1);
      assert 2 * (Pow2(i - 1) * PAGE) == 2 * Pow2(i - 1) * PAGE;
    } else {
      assert Pow2(12) == PAGE;
    }
  }

  lemma {:induction false} SumOfMultiples(x: nat, y: nat, d: nat)
    requires d > 0 && x % d == 0 && y % d == 0
    ensures (x + y) % d == 0
  {
    SplitMod(x, d);
    SplitMod(y, d);
    assert x / d * d + y / d * d == (x / d + y / d) * d;
    ModMultiple(x / d + y / d, d);
  }

  lemma {:induction false} MultipleOfMultiple(bit: nat, align: nat)
    requires align > 0 && bit % align == 0
    ensures (bit * PAGE) % (align * PAGE) == 0
  {
    SplitMod(bit, align);
    assert bit * PAGE == bit / align * (align * PAGE);
    ModMultiple(bit / align, align * PAGE);
  }

  /** A multiple of a leaves room for a before the next multiple of b, if a divides b. */
  lemma {:induction false} RoomBefore(x: nat, a: nat, b: nat)
    requires a > 0 && b > 0 && b % a == 0 && x % a == 0
    ensures x % b + a <= b
  {
    SplitMod(x, b);
    SplitMod(x, a);
    SplitMod(b, a);
    var q, r := x / b, x % b;
    assert q * b == q * (b / a) * a by {
      assert q * (b / a * a) == q * (b / a) * a;
    }
    assert r == (x / a - q * (b / a)) * a by {
      assert x / a * a - q * (b / a) * a == (x / a - q * (b / a)) * a;
    }
    var t := x / a - q * (b / a);
    if t >= b / a {
      MulMono(b / a, t, a);
    } else {
      MulGap(t, b / a, a);
    }
  }

  /** The argument of qcom_iommu_dma_prepare_map_sg: an allocation that is not longer than the distance
      of boundaries lies between two, and a longer one starts at one. */
  lemma {:induction false} PlacementAvoids(
    base: nat, bit: nat, n: nat, k: nat, o: seq<S.Segment>, p: seq<S.Segment>, iova: nat)
    requires iova == AddressOf(base, bit) && bit % Alignment(n) == 0 && AlignedBase(base, n, Pow2(k))
    requires S.TotalLength(p) <= n * PAGE
    requires S.NoneCrosses(Pow2(k), o, p) && S.NoneWider(Pow2(k), o)
    ensures S.Avoidable(Pow2(k), o, p, iova)
  {
    var j := AlignmentIsPow2(n);
    var a, b := Pow2(j), Pow2(k);
    MultipleOfMultiple(bit, Alignment(n));
    S.BeyondIsMod(iova, b);
    if k <= j {
      PowMono(k, j);
      DividesTrans(bit * PAGE, k, j);
      SumOfMultiples(base, bit * PAGE, b);
    } else {
      PowMono(j, k);
      SumOfMultiples(base, bit * PAGE, a);
      RoomBefore(iova, a, b);
      MulMono(n, Alignment(n), PAGE);
    }
  }

  // ----- the mapping -------------------------------------------------------------------------------------

  datatype IovaResult = MappingError | Iova(bit: nat)

  class FastMapping {
    const base: nat
    const pages: nat
    const table: P.FastTable
    var bitmap: seq<bool>
    var cleanBitmap: seq<bool>
    var nextStart: nat
    var haveStaleTlbs: bool
    ghost var phases: seq<Phase>
    ghost var tlb: set<TlbEntry>
    ghost var unmapped: set<nat>

    ghost predicate Fitted()
      reads this, table
    {
      && table.Valid() && table.base == base && base % PAGE == 0 && pages > 0
      && table.end == AddressOf(base, pages) && |bitmap| == pages
    }

    /** The entries of the page table are those that a walk finds. */
    ghost function State(): Domain
      requires Fitted()
      reads this, table
    {
      Domain(bitmap, cleanBitmap, nextStart, haveStaleTlbs, PtesOf(G.ViewOf(table), pages), phases, tlb, unmapped)
    }

    ghost predicate Valid()
      reads this, table
    {
      Fitted() && Inv(State())
    }

    constructor (base: nat, reserved: seq<bool>)
      requires base % PAGE == 0 && |reserved| > 0 && AddressOf(base, |reserved|) <= P.SZ_4G
      ensures Valid() && fresh(table) && this.base == base && State() == Initial(reserved)
    {
      this.base, pages := base, |reserved|;
      table := new P.FastTable(base, AddressOf(base, |reserved|));
      bitmap, cleanBitmap, nextStart, haveStaleTlbs := reserved, reserved, 0, false;
      phases := seq(|reserved|, p requires 0 <= p < |reserved| => if reserved[p] then Reserved else Free);
      tlb, unmapped := {}, {};
      new;
      InitialInv(reserved);
      assert PtesOf(G.ViewOf(table), pages) == Initial(reserved).ptes;
    }

    /** The search of __fast_smmu_alloc_iova: from the last position, then from the start, then,
        if freed pages may be in the way, from the start after a flush. */
    method FindPlace(n: nat) returns (bit: nat, ghost flushed: bool)
      requires Valid() && n > 0
      modifies this`cleanBitmap, this`haveStaleTlbs, this`tlb, this`unmapped
      ensures Fitted() && State() == MaybeFlush(old(State()), flushed)
      ensures bit <= |bitmap| ==> Allocates(old(State()), bit, n, flushed)
      ensures bit > |bitmap| ==> AllocationFails(old(State()), n, flushed)
    {
      flushed := false;
      var align := Alignment(n);
      bit := FindNextZeroArea(cleanBitmap, nextStart, n, align);
      if bit > |bitmap| {
        bit := FindNextZeroArea(cleanBitmap, 0, n, align);
        if bit > |bitmap| && haveStaleTlbs {
          tlb, unmapped := {}, {};
          cleanBitmap := bitmap;
          haveStaleTlbs := false;
          flushed := true;
          bit := FindNextZeroArea(cleanBitmap, 0, n, align);
        }
      }
    }

    /** __fast_smmu_alloc_iova for n pages.  It fails only if the true bitmap has no room. */
    method AllocIova(n: nat) returns (r: IovaResult, ghost flushed: bool)
      requires Valid() && n > 0
      modifies this`bitmap, this`cleanBitmap, this`nextStart, this`haveStaleTlbs
      modifies this`phases, this`tlb, this`unmapped
      ensures Valid()
      ensures r.Iova? ==>
                Fits(old(bitmap), r.bit, n, Alignment(n)) && Steps(old(State()), Alloc(r.bit, n, flushed), State())
      ensures r.MappingError? <==> forall i: nat :: !Fits(old(bitmap), i, n, Alignment(n))
      ensures r.MappingError? ==> Steps(old(State()), AllocFails(n, flushed), State())
    {
      ghost var d := State();
      var bit;
      bit, flushed := FindPlace(n);
      FlushKeeps(d);
      if bit > |bitmap| {
        FailsOnlyWithoutRoom(d, n, flushed);
        r := MappingError;
        return;
      }
      ClearIsClear(d, bit, n, flushed);
      TakeKeeps(MaybeFlush(d, flushed), bit, n);
      bitmap := SetRange(bitmap, bit, n, true);
      cleanBitmap := SetRange(cleanBitmap, bit, n, true);
      nextStart := if bit + n >= |bitmap| then 0 else bit + n;
      phases := SetPhases(phases, bit, n, Reserved);
      assert State() == Take(MaybeFlush(d, flushed), bit, n);
      r := Iova(bit);
    }

    /** __fast_smmu_free_iova */
    method FreeIova(i: nat, n: nat)
      requires Valid() && AllIn(State(), i, n, Unmapped)
      modifies this`bitmap, this`haveStaleTlbs, this`phases
      ensures Valid() && Steps(old(State()), FreePages(i, n), State())
    {
      ReleaseKeeps(State(), i, n);
      bitmap := SetRange(bitmap, i, n, false);
      haveStaleTlbs := true;
      phases := SetPhases(phases, i, n, Free);
      assert State() == Release(old(State()), i, n);
    }

    /** After the entries of allocated pages have been written. */
    ghost method NoteMapped(d: Domain, v: G.View, i: nat, n: nat)
      requires Fitted() && Inv(d) && AllIn(d, i, n, Reserved)
      requires v.base == base && Shaped(v, pages) && d == State().(ptes := PtesOf(v, pages))
      requires OnlyPages(v, G.ViewOf(table), i, n)
      requires AllLeaf(G.ViewOf(table), i, n)
      modifies this`phases
      ensures Valid() && Steps(d, MapPages(i, n, PhysOf(G.ViewOf(table))), State())
    {
      PagesMapped(d, v, G.ViewOf(table), i, n);
      phases := SetPhases(phases, i, n, Mapped);
      assert State() == Map(d, i, n, PhysOf(G.ViewOf(table)));
      MapKeeps(d, i, n, PhysOf(G.ViewOf(table)));
    }

    /** After the entries of mapped pages have been cleared. */
    ghost method NoteUnmapped(d: Domain, v: G.View, i: nat, n: nat)
      requires Fitted() && Inv(d) && AllIn(d, i, n, Mapped)
      requires v.base == base && Shaped(v, pages) && d == State().(ptes := PtesOf(v, pages))
      requires OnlyPages(v, G.ViewOf(table), i, n)
      requires NoneLeaf(G.ViewOf(table), i, n)
      modifies this`phases, this`unmapped
      ensures Valid() && Steps(d, UnmapPages(i, n), State())
    {
      PagesUnmapped(d, v, G.ViewOf(table), i, n);
      phases := SetPhases(phases, i, n, Unmapped);
      unmapped := unmapped + Pages(i, n);
      assert State() == Unmap(d, i, n);
      UnmapKeeps(d, i, n);
    }

    // ----- single pages --------------------------------------------------------------------------------

    /** fast_smmu_map_page for `size` bytes from physical address phys: the device reaches exactly these
        bytes from the address returned on, and no page outside the allocation changes. */
    method MapPage(phys: nat, size: nat, prot: nat)
      returns (r: DmaResult, ghost bit: nat, ghost flushed: bool, ghost v: G.View)
      requires Valid() && PagesFor(phys, size) > 0
      modifies this, table
      ensures Valid() && v == G.ViewOf(table)
      ensures r.NoAddress? <==> NoRoom(old(bitmap), PagesFor(phys, size))
      ensures r.NoAddress? ==> Steps(old(State()), AllocFails(PagesFor(phys, size), flushed), State())
      ensures r.Address? ==> r.addr == AddressOf(base, bit) + phys % PAGE && Reached(v, r.addr, phys, size)
      ensures r.Address? ==>
                Allocated(old(State()), State(), old(G.ViewOf(table)), v, bit, PagesFor(phys, size), flushed)
    {
      OffsetFits(phys, size);
      r, bit, flushed, v := MapInto(PagesFor(phys, size), phys - phys % PAGE, phys % PAGE, size, prot);
    }

    method MapInto(n: nat, page: nat, off: nat, size: nat, prot: nat)
      returns (r: DmaResult, ghost bit: nat, ghost flushed: bool, ghost v: G.View)
      requires Valid() && n > 0 && page % PAGE == 0 && off + size <= n * PAGE
      modifies this, table
      ensures Valid() && v == G.ViewOf(table)
      ensures r.NoAddress? <==> NoRoom(old(bitmap), n)
      ensures r.NoAddress? ==> Steps(old(State()), AllocFails(n, flushed), State())
      ensures r.Address? ==> r.addr == AddressOf(base, bit) + off && Reached(v, r.addr, page + off, size)
      ensures r.Address? ==> Allocated(old(State()), State(), old(G.ViewOf(table)), v, bit, n, flushed)
    {
      var iova;
      iova, flushed := AllocIova(n);
      bit, v := 0, G.ViewOf(table);
      if iova.MappingError? {
        return NoAddress, bit, flushed, v;
      }
      bit := iova.bit;
      var addr := AddressOf(base, iova.bit) + off;
      v := WritePages(iova.bit, n, page, off, size, prot, addr);
      r := Address(addr);
    }

    /** av8l_fast_map_public on a region that has been allocated. */
    method WritePages(bit: nat, n: nat, page: nat, off: nat, size: nat, prot: nat, addr: nat) returns (ghost v: G.View)
      requires addr == AddressOf(base, bit) + off && Valid() && AllIn(State(), bit, n, Reserved) && page % PAGE == 0
      requires off + size <= n * PAGE
      modifies this`phases, table
      ensures Valid() && v == G.ViewOf(table) && Steps(old(State()), MapPages(bit, n, PhysOf(v)), State())
      ensures OnlyPages(old(G.ViewOf(table)), v, bit, n)
      ensures Reached(v, addr, page + off, size)
    {
      ghost var d, v0 := State(), G.ViewOf(table);
      v := WriteRegion(table, bit, n, pages, page, off, size, prot, addr);
      NoteMapped(d, v0, bit, n);
    }

    /** fast_smmu_unmap_page for an address that fast_smmu_map_page returned. */
    method UnmapPage(addr: nat, size: nat, ghost bit: nat)
      requires Valid() && addr - addr % PAGE == AddressOf(base, bit) && PagesFor(addr, size) > 0
      requires AllIn(State(), bit, PagesFor(addr, size), Mapped)
      modifies this, table
      ensures Valid()
      ensures TwoSteps(old(State()), UnmapPages(bit, PagesFor(addr, size)), FreePages(bit, PagesFor(addr, size)),
                       State())
      ensures OnlyPages(old(G.ViewOf(table)), G.ViewOf(table), bit, PagesFor(addr, size))
    {
      var n := PagesFor(addr, size);
      ClearPages(addr, n, bit);
      FreeIova((addr - base) / PAGE, n);
    }

    /** av8l_fast_unmap_public, at an address within the first of the pages. */
    method ClearPages(addr: nat, n: nat, ghost bit: nat)
      requires Valid() && addr - addr % PAGE == AddressOf(base, bit) && AllIn(State(), bit, n, Mapped)
      modifies this`phases, this`unmapped, table
      ensures Valid() && Steps(old(State()), UnmapPages(bit, n), State())
      ensures OnlyPages(old(G.ViewOf(table)), G.ViewOf(table), bit, n)
      ensures (addr - base) / PAGE == bit
    {
      ghost var d, v := State(), G.ViewOf(table);
      EraseRegion(table, addr, n, pages, bit);
      NoteUnmapped(d, v, bit, n);
    }

    // ----- scatterlists --------------------------------------------------------------------------------

    /** fast_smmu_map_sg: the list is prepared, given IOVA space, mapped and finalised; or there is no
        space for it, and it is invalidated. */
    method MapSg(a: array<S.Segment>, lim: S.Limits, prot: nat, ghost k: nat)
      returns (count: nat, ghost bit: nat, ghost flushed: bool, ghost v: G.View)
      requires Valid() && lim.boundary == Pow2(k) && G.AtPages(a[..]) && SpaceFor(lim.boundary, a[..]) > 0
      modifies this, table, a
      ensures Valid() && v == G.ViewOf(table)
      ensures count == 0 <==> NoRoom(old(bitmap), SpaceFor(lim.boundary, old(a[..])))
      ensures count == 0 ==> S.Invalidated(Layout(lim.boundary, old(a[..])), a[..])
      ensures count == 0 ==> Steps(old(State()), AllocFails(SpaceFor(lim.boundary, old(a[..])), flushed), State())
      ensures count > 0 ==>
                && count == |SegmentsFor(lim, old(a[..]), AddressOf(base, bit))|
                && ListMapped(lim, a[..], old(a[..]), base, AddressOf(base, bit), v)
                && Allocated(old(State()), State(), old(G.ViewOf(table)), v, bit,
                             SpaceFor(lim.boundary, old(a[..])), flushed)
    {
      ghost var o := a[..];
      PowerIsGood(k);
      SpaceIsPages(lim.boundary, o);
      var iovaLen := S.PrepareMapSg(a, lim.boundary);
      var iova;
      iova, flushed := AllocIova(iovaLen / PAGE);
      bit, v := 0, G.ViewOf(table);
      if iova.MappingError? {
        S.InvalidateSg(a);
        return 0, bit, flushed, v;
      }
      bit := iova.bit;
      count, v := MapList(a, o, iova.bit, lim, prot, k);
    }

    method MapList(a: array<S.Segment>, ghost o: seq<S.Segment>, bit: nat, lim: S.Limits, prot: nat, ghost k: nat)
      returns (count: nat, ghost v: G.View)
      requires Valid() && lim.boundary == Pow2(k) && G.AtPages(o) && |o| > 0
      requires a[..] == Layout(lim.boundary, o) && S.Prepared(o, a[..]) && S.NoneCrosses(lim.boundary, o, a[..])
      requires bit % Alignment(SpaceFor(lim.boundary, o)) == 0
      requires AllIn(State(), bit, SpaceFor(lim.boundary, o), Reserved)
      modifies this`phases, table, a
      ensures Valid() && v == G.ViewOf(table) && OnlyPages(old(G.ViewOf(table)), v, bit, SpaceFor(lim.boundary, o))
      ensures Steps(old(State()), MapPages(bit, SpaceFor(lim.boundary, o), PhysOf(v)), State())
      ensures count == |SegmentsFor(lim, o, AddressOf(base, bit))| > 0
      ensures ListMapped(lim, a[..], o, base, AddressOf(base, bit), v)
    {
      ghost var d, v0 := State(), G.ViewOf(table);
      count, v := FillList(table, a, o, AddressOf(base, bit), lim, prot, bit, pages, k);
      NoteMapped(d, v0, bit, SpaceFor(lim.boundary, o));
    }

    /** fast_smmu_unmap_sg: the pages of the extent are unmapped and freed; they are all pages of the
        allocation if and only if the scan covers it, and the others stay mapped.  An empty extent
        changes nothing. */
    method UnmapSg(a: array<S.Segment>, ghost lim: S.Limits, ghost o: seq<S.Segment>, ghost bit: nat, ghost k: nat)
      returns (ghost m: nat)
      requires Valid() && lim.boundary == Pow2(k)
      requires G.MappedList(lim, a[..], o, Layout(lim.boundary, o), AddressOf(base, bit))
      requires AllIn(State(), bit, SpaceFor(lim.boundary, o), Mapped)
      modifies this, table
      ensures Valid() && m <= SpaceFor(lim.boundary, o)
      ensures m == SpaceFor(lim.boundary, o) <==>
                G.ScanCovers(lim.boundary, o, Layout(lim.boundary, o), AddressOf(base, bit))
      ensures m == 0 ==> State() == old(State())
      ensures m > 0 ==> TwoSteps(old(State()), UnmapPages(bit, m), FreePages(bit, m), State())
      ensures OnlyPages(old(G.ViewOf(table)), G.ViewOf(table), bit, m)
      ensures AllIn(State(), bit + m, SpaceFor(lim.boundary, o) - m, Mapped)
    {
      ghost var d, v := State(), G.ViewOf(table);
      var start, n := EraseList(table, a, lim, o, AddressOf(base, bit), bit, pages, k);
      m := n;
      FreeExtent(d, v, start, n, SpaceFor(lim.boundary, o));
    }

    /** The IOVA space of the extent is freed, unless it is empty. */
    method FreeExtent(ghost d: Domain, ghost v: G.View, start: nat, n: nat, ghost space: nat)
      requires Fitted() && Inv(d) && n <= space && AllIn(d, start, space, Mapped)
      requires v.base == base && Shaped(v, pages) && d == State().(ptes := PtesOf(v, pages))
      requires OnlyPages(v, G.ViewOf(table), start, n) && NoneLeaf(G.ViewOf(table), start, n)
      modifies this`bitmap, this`haveStaleTlbs, this`phases, this`unmapped
      ensures Valid()
      ensures n == 0 ==> State() == d
      ensures n > 0 ==> TwoSteps(d, UnmapPages(start, n), FreePages(start, n), State())
      ensures AllIn(State(), start + n, space - n, Mapped)
    {
      if n == 0 {
        NothingUnmapped(d, v, G.ViewOf(table), start);
        assert State() == d;
        return;
      }
      NoteUnmapped(d, v, start, n);
      FreeIova(start, n);
    }
  }

  lemma {:induction false} NothingUnmapped(d: Domain, v: G.View, v': G.View, i: nat)
    requires Sized(d) && Shaped(v, |d.bitmap|) && d.ptes == PtesOf(v, |d.bitmap|) && OnlyPages(v, v', i, 0)
    ensures PtesOf(v', |d.bitmap|) == d.ptes
  {
    forall p | 0 <= p < |d.bitmap|
      ensures PtesOf(v', |d.bitmap|)[p] == d.ptes[p]
    {
      OtherPage(v, v', |d.bitmap|, i, 0, p);
    }
  }

  /** No place for n pages. */
  ghost predicate NoRoom(b: seq<bool>, n: nat) {
    forall i: nat :: !Fits(b, i, n, Alignment(n))
  }

  /** n pages from page `bit` on have been allocated and mapped, and no others have changed. */
  ghost predicate Allocated(d: Domain, d': Domain, v: G.View, v': G.View, bit: nat, n: nat, flushed: bool) {
    && Fits(d.bitmap, bit, n, Alignment(n)) && OnlyPages(v, v', bit, n)
    && TwoSteps(d, Alloc(bit, n, flushed), MapPages(bit, n, PhysOf(v')), d')
  }

  // ----- scatterlists -------------------------------------------------------------------------------------

  /** The list as it is laid out for these boundaries. */
  function Layout(boundary: nat, o: seq<S.Segment>): seq<S.Segment>
    requires boundary > 0
  {
    S.PreparedList(boundary, o, |o|)
  }

  /** The IOVA space that it takes, in pages. */
  function SpaceFor(boundary: nat, o: seq<S.Segment>): nat
    requires boundary > 0
  {
    S.TotalLength(Layout(boundary, o)) / PAGE
  }

  /** The DMA segments for the list at page `bit` of the mapping. */
  function SegmentsFor(lim: S.Limits, o: seq<S.Segment>, iova: nat): seq<S.Dma>
    requires lim.boundary > 0
  {
    S.FinalRun(lim, Layout(lim.boundary, o), iova, |o|).out
  }

  /** What fast_smmu_map_sg promises about the list: using the DMA segments in order the device reaches
      the bytes of the list in order; no DMA segment is longer than the device allows if no segment of
      the list is; and none crosses a boundary if every segment can be kept from it. */
  ghost predicate ListMapped(lim: S.Limits, a: seq<S.Segment>, o: seq<S.Segment>, base: nat, iova: nat, v: G.View)
    requires lim.boundary > 0
  {
    && G.MappedList(lim, a, o, Layout(lim.boundary, o), iova)
    && G.Reaches(v, S.DmaBytes(SegmentsFor(lim, o, iova)), G.MemoryBytes(o, |o|))
    && (S.NoneLonger(lim.maxLen, o) ==> NoneTooLong(lim, SegmentsFor(lim, o, iova)))
    && (S.NoneWider(lim.boundary, o) && AlignedBase(base, SpaceFor(lim.boundary, o), lim.boundary) ==>
          S.AllInside(lim.boundary, SegmentsFor(lim, o, iova)))
  }

  predicate NoneTooLong(lim: S.Limits, out: seq<S.Dma>) {
    forall i :: 0 <= i < |out| ==> out[i].len <= lim.maxLen
  }

  lemma {:induction false} PowerIsGood(k: nat)
    ensures S.GoodBoundary(Pow2(k))
  {
    assert Pow2(12) == PAGE;
    if k <= 12 {
      PowMono(k, 12);
    } else {
      PowMono(12, k);
    }
  }

  /** The layout takes whole pages. */
  lemma {:induction false} SpaceIsPages(boundary: nat, o: seq<S.Segment>)
    requires S.GoodBoundary(boundary)
    ensures SpaceFor(boundary, o) * PAGE == S.TotalLength(Layout(boundary, o))
  {
    S.PreparedListKeeps(boundary, o, |o|);
    S.StartWholePages(Layout(boundary, o), |o|);
  }

  /** From av8l_fast_map_sg_public on: the list is mapped into the pages that were allocated. */
  method FillList(t: P.FastTable, a: array<S.Segment>, ghost o: seq<S.Segment>, iova: nat, lim: S.Limits, prot: nat,
                  ghost bit: nat, ghost pages: nat, ghost k: nat)
    returns (count: nat, ghost v: G.View)
    requires t.Valid() && t.base % PAGE == 0 && t.end == AddressOf(t.base, pages) && lim.boundary == Pow2(k)
    requires G.AtPages(o) && |o| > 0 && a[..] == Layout(lim.boundary, o) && S.Prepared(o, a[..])
    requires S.NoneCrosses(lim.boundary, o, a[..])
    requires iova == AddressOf(t.base, bit) && bit + SpaceFor(lim.boundary, o) <= pages
    requires bit % Alignment(SpaceFor(lim.boundary, o)) == 0
    modifies t, a
    ensures t.Valid() && v == G.ViewOf(t)
    ensures OnlyPages(old(G.ViewOf(t)), v, bit, SpaceFor(lim.boundary, o)) && AllLeaf(v, bit, SpaceFor(lim.boundary, o))
    ensures count == |SegmentsFor(lim, o, iova)| > 0 && ListMapped(lim, a[..], o, t.base, iova, v)
  {
    ghost var p, n := Layout(lim.boundary, o), SpaceFor(lim.boundary, o);
    PowerIsGood(k);
    SpaceIsPages(lim.boundary, o);
    PlaceFits(t.base, bit, n, pages);
    ghost var f;
    count, f := G.MapPrepared(t, a, o, iova, lim, prot);
    v := G.ViewOf(t);
    ListPages(old(G.ViewOf(t)), v, p, bit, n, prot);
    ListIsMapped(lim, a[..], o, t.base, bit, k, iova, v, f);
  }

  lemma {:induction false} ListIsMapped(
    lim: S.Limits, a: seq<S.Segment>, o: seq<S.Segment>, base: nat, bit: nat, k: nat, iova: nat, v: G.View, f: S.Final)
    requires lim.boundary == Pow2(k) && f == S.FinalRun(lim, Layout(lim.boundary, o), iova, |Layout(lim.boundary, o)|)
    requires G.MappedList(lim, a, o, Layout(lim.boundary, o), iova)
    requires S.Promised(lim, o, Layout(lim.boundary, o), iova, f)
    requires G.Reaches(v, S.DmaBytes(f.out), G.MemoryBytes(o, |o|))
    requires S.NoneCrosses(lim.boundary, o, Layout(lim.boundary, o))
    requires iova == AddressOf(base, bit) && bit % Alignment(SpaceFor(lim.boundary, o)) == 0
    requires S.TotalLength(Layout(lim.boundary, o)) <= SpaceFor(lim.boundary, o) * PAGE
    ensures ListMapped(lim, a, o, base, iova, v)
  {
    if S.NoneWider(lim.boundary, o) && AlignedBase(base, SpaceFor(lim.boundary, o), lim.boundary) {
      PlacementAvoids(base, bit, SpaceFor(lim.boundary, o), k, o, Layout(lim.boundary, o), iova);
    }
  }

  /** The page table's part of unmapping a list: the first page and the number of pages of the extent. */
  method EraseList(t: P.FastTable, a: array<S.Segment>, ghost lim: S.Limits, ghost o: seq<S.Segment>, ghost iova: nat,
                   ghost bit: nat, ghost pages: nat, ghost k: nat)
    returns (start: nat, n: nat)
    requires iova == AddressOf(t.base, bit) && t.Valid() && t.base % PAGE == 0 && t.end == AddressOf(t.base, pages)
    requires lim.boundary == Pow2(k)
    requires G.MappedList(lim, a[..], o, Layout(lim.boundary, o), iova)
    requires bit + SpaceFor(lim.boundary, o) <= pages
    modifies t
    ensures t.Valid() && OnlyPages(old(G.ViewOf(t)), G.ViewOf(t), bit, n) && NoneLeaf(G.ViewOf(t), bit, n)
    ensures start == bit && n <= SpaceFor(lim.boundary, o)
    ensures n == SpaceFor(lim.boundary, o) <==> G.ScanCovers(lim.boundary, o, Layout(lim.boundary, o), iova)
  {
    PowerIsGood(k);
    SpaceIsPages(lim.boundary, o);
    PlaceFits(t.base, bit, SpaceFor(lim.boundary, o), pages);
    var addr, len := G.UnmapSg(t, a, lim, o, Layout(lim.boundary, o), iova);
    n := len / PAGE;
    PageNumber(t.base, addr, bit);
    start := (addr - t.base) / PAGE;
    ClearedPages(old(G.ViewOf(t)), G.ViewOf(t), bit, n, pages);
  }

  lemma {:induction false} ListPages(v: G.View, v': G.View, p: seq<S.Segment>, bit: nat, n: nat, prot: nat)
    requires S.TotalLength(p) == n * PAGE && G.AllMapped(v', p, AddressOf(v.base, bit), prot, |p|)
    requires G.Untouched(v, v', AddressOf(v.base, bit), AddressOf(v.base, bit) + S.TotalLength(p))
    ensures OnlyPages(v, v', bit, n) && AllLeaf(v', bit, n)
  {
    forall q | bit <= q < bit + n
      ensures v'.entry(AddressOf(v'.base, q)).Leaf?
    {
      G.AllocationMapped(v', p, AddressOf(v.base, bit), prot, AddressOf(v.base, q));
    }
  }

  // ----- single pages ------------------------------------------------------------------------------------

  /** The page table's part of mapping a page. */
  method WriteRegion(
    t: P.FastTable, bit: nat, n: nat, ghost pages: nat, page: nat, off: nat, size: nat, prot: nat, ghost addr: nat)
    returns (ghost v: G.View)
    requires addr == AddressOf(t.base, bit) + off && t.Valid() && t.base % PAGE == 0
    requires t.end == AddressOf(t.base, pages) && bit + n <= pages
    requires page % PAGE == 0 && off + size <= n * PAGE
    modifies t
    ensures t.Valid() && v == G.ViewOf(t) && OnlyPages(old(G.ViewOf(t)), v, bit, n) && AllLeaf(v, bit, n)
    ensures Reached(v, addr, page + off, size)
  {
    ghost var v0 := G.ViewOf(t);
    var s := S.Segment(page, 0, n * PAGE, off, size);
    PlaceFits(t.base, bit, n, pages);
    G.MapSegment(t, AddressOf(t.base, bit), s, prot);
    v := G.ViewOf(t);
    SetPages(v0, v, s, bit, n, prot);
    RegionReaches(v0, v, page, off, size, n, AddressOf(t.base, bit), prot, addr);
  }

  lemma {:induction false} RegionReaches(
    v: G.View, v': G.View, page: nat, off: nat, size: nat, n: nat, at: nat, prot: nat, addr: nat)
    requires addr == at + off && G.SegmentSet(v, v', S.Segment(page, 0, n * PAGE, off, size), at, prot)
    requires at % PAGE == 0 && off + size <= n * PAGE
    ensures Reached(v', addr, page + off, size)
  {
    var o, s := S.Segment(page, off, size, 0, 0), S.Segment(page, 0, n * PAGE, off, size);
    G.NewIsMapped(v, v', s, at, prot);
    G.SegmentReaches(v', o, s, at, prot);
  }

  /** From addr on, the device reaches these bytes. */
  ghost predicate Reached(v: G.View, addr: nat, phys: nat, size: nat) {
    G.Reaches(v, S.Bytes(addr, size), S.Bytes(phys, size))
  }

  /** And of unmapping it. */
  method EraseRegion(t: P.FastTable, addr: nat, n: nat, ghost pages: nat, ghost bit: nat)
    requires t.Valid() && t.base % PAGE == 0 && t.end == AddressOf(t.base, pages) && bit + n <= pages
    requires addr - addr % PAGE == AddressOf(t.base, bit)
    modifies t
    ensures t.Valid() && OnlyPages(old(G.ViewOf(t)), G.ViewOf(t), bit, n) && NoneLeaf(G.ViewOf(t), bit, n)
    ensures (addr - t.base) / PAGE == bit
  {
    PlaceFits(t.base, bit, n, pages);
    PageNumber(t.base, addr, bit);
    G.ClearRegion(t, addr, AddressOf(t.base, bit), n * PAGE);
    ClearedPages(old(G.ViewOf(t)), G.ViewOf(t), bit, n, pages);
  }

  ghost predicate AllLeaf(v: G.View, i: nat, n: nat) {
    forall p :: i <= p < i + n ==> v.entry(AddressOf(v.base, p)).Leaf?
  }

  ghost predicate NoneLeaf(v: G.View, i: nat, n: nat) {
    forall p :: i <= p < i + n ==> !v.entry(AddressOf(v.base, p)).Leaf?
  }

  lemma {:induction false} SetPages(v: G.View, v': G.View, s: S.Segment, bit: nat, n: nat, prot: nat)
    requires G.SegmentSet(v, v', s, AddressOf(v.base, bit), prot) && s.length == n * PAGE
    ensures OnlyPages(v, v', bit, n) && AllLeaf(v', bit, n)
  {
    forall p | bit <= p < bit + n
      ensures v'.entry(AddressOf(v.base, p)).Leaf?
    {
      assert AddressOf(v.base, bit) <= AddressOf(v.base, p) < AddressOf(v.base, bit) + s.length;
    }
  }

  lemma {:induction false} ClearedPages(v: G.View, v': G.View, bit: nat, n: nat, pages: nat)
    requires v.end == AddressOf(v.base, pages) && bit + n <= pages
    requires G.Untouched(v, v', AddressOf(v.base, bit), AddressOf(v.base, bit) + n * PAGE)
    requires forall x :: AddressOf(v.base, bit) <= x < AddressOf(v.base, bit) + n * PAGE ==>
               G.Translate(v', x) == P.Fault
    ensures OnlyPages(v, v', bit, n) && NoneLeaf(v', bit, n)
  {
    forall p | bit <= p < bit + n
      ensures !v'.entry(AddressOf(v.base, p)).Leaf?
    {
      assert G.Translate(v', AddressOf(v.base, p)) == P.Fault;
    }
  }

  lemma {:induction false} PageNumber(base: nat, addr: nat, bit: nat)
    requires base % PAGE == 0 && addr - addr % PAGE == AddressOf(base, bit)
    ensures (addr - base) / PAGE == bit
  {
  }

  datatype DmaResult = NoAddress | Address(addr: nat)

  /** ALIGN(size + offset, FAST_PAGE_SIZE), in pages */
  function PagesFor(addr: nat, size: nat): nat {
    (size + addr % PAGE + PAGE - 1) / PAGE
  }

  lemma {:induction false} PlaceFits(base: nat, bit: nat, n: nat, pages: nat)
    requires base % PAGE == 0 && bit + n <= pages
    ensures AddressOf(base, bit) % PAGE == 0
    ensures AddressOf(base, bit) + n * PAGE == AddressOf(base, bit + n) <= AddressOf(base, pages)
  {
  }

  lemma {:induction false} OffsetFits(phys: nat, size: nat)
    ensures (phys - phys % PAGE) % PAGE == 0 && size + phys % PAGE <= PagesFor(phys, size) * PAGE
  {
  }
}
