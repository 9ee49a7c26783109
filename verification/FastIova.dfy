/** The IOVA allocator of drivers/iommu/dma-mapping-fast.c and the TLB discipline built on it.

    Pages are numbered from the base of the mapping.  `bitmap` says which pages are allocated;
    `clean_bitmap` keeps a page marked after it is freed, until the next TLB flush, so that no page
    is handed out again while the TLB may still hold its old translation. */
module FastIova {
  import opened Arith

  // ----- bitmaps ------------------------------------------------------------------------------

  function SetRange(b: seq<bool>, i: nat, n: nat, v: bool): (r: seq<bool>)
    requires i + n <= |b|
    ensures |r| == |b|
    ensures forall p :: 0 <= p < |b| ==> r[p] == if i <= p < i + n then v else b[p]
  {
    seq(|b|, p requires 0 <= p < |b| => if i <= p < i + n then v else b[p])
  }

  predicate AreaClear(b: seq<bool>, i: nat, n: nat) {
    i + n <= |b| && forall p :: i <= p < i + n ==> !b[p]
  }

  /** A place for n pages: aligned, and clear. */
  predicate Fits(b: seq<bool>, i: nat, n: nat, align: nat)
    requires align > 0
  {
    i % align == 0 && AreaClear(b, i, n)
  }

  /** The smallest power of two, starting from p, that is at least n. */
  function PowerOfTwo(n: nat, p: nat): (r: nat)
    requires p > 0
    ensures r >= n && r >= p
    decreases if p < n then n - p else 0
  {
    if p >= n then p else PowerOfTwo(n, 2 * p)
  }

  /** 1 << get_order(size), in pages. */
  function Alignment(n: nat): (r: nat)
    ensures r >= n && r > 0
  {
    PowerOfTwo(n, 1)
  }

  function AlignUp(i: nat, align: nat): (r: nat)
    requires align > 0
  {
    (i + align - 1) / align * align
  }

  lemma AlignUpIsNext(i: nat, align: nat)
    requires align > 0
    ensures AlignUp(i, align) % align == 0 && i <= AlignUp(i, align) < i + align
  {
    SplitMod(i + align - 1, align);
    ModMultiple((i + align - 1) / align, align);
  }

  /** No aligned number lies between i and its rounding up. */
  lemma NoneBetween(i: nat, j: nat, align: nat)
    requires align > 0 && i <= j && j % align == 0
    ensures AlignUp(i, align) <= j
  {
    SplitMod(j, align);
    SplitMod(i + align - 1, align);
    var qa, qj := (i + align - 1) / align, j / align;
    if qj < qa {
      MulGap(qj, qa, align);
    } else {
      MulMono(qa, qj, align);
    }
  }

  /** find_next_zero_bit */
  method FindNextZeroBit(b: seq<bool>, start: nat) returns (i: nat)
    ensures i == |b| || (start <= i < |b| && !b[i])
    ensures forall p :: start <= p < i && p < |b| ==> b[p]
  {
    if start >= |b| {
      return |b|;
    }
    i := start;
    while i < |b| && b[i]
      invariant start <= i <= |b|
      invariant forall p :: start <= p < i ==> b[p]
    {
      i := i + 1;
    }
  }

  /** bitmap_find_next_zero_area: the first place at or after `start`, or a number above the size of
      the bitmap if there is none. */
  method FindNextZeroArea(b: seq<bool>, start: nat, n: nat, align: nat) returns (bit: nat)
    requires n > 0 && align > 0
    ensures bit <= |b| ==> start <= bit && Fits(b, bit, n, align)
    ensures forall i: nat :: start <= i < bit ==> !Fits(b, i, n, align)
    ensures bit > |b| ==> forall i: nat :: i >= start ==> !Fits(b, i, n, align)
  {
    var from := start;
    while true
      invariant start <= from
      invariant forall i: nat :: start <= i < from ==> !Fits(b, i, n, align)
      decreases |b| + 1 - from
    {
      var z := FindNextZeroBit(b, from);
      var index := AlignUp(z, align);
      AlignUpIsNext(z, align);
      Skipped(b, from, z, index, n, align);
      if index + n > |b| {
        TooLate(b, start, index, n, align);
        return index + n;
      }
      var busy := FindNextBit(b, index, index + n);
      if busy == index + n {
        return index;
      }
      Blocked(b, index, busy, n, align);
      from := busy + 1;
    }
  }

  /** find_next_bit below `end` */
  method FindNextBit(b: seq<bool>, start: nat, end: nat) returns (i: nat)
    requires start <= end <= |b|
    ensures start <= i <= end && (i < end ==> b[i])
    ensures forall p :: start <= p < i ==> !b[p]
  {
    i := start;
    while i < end && !b[i]
      invariant start <= i <= end
      invariant forall p :: start <= p < i ==> !b[p]
    {
      i := i + 1;
    }
  }

  /** Nothing fits before the next clear bit, nor before that is rounded up. */
  lemma Skipped(b: seq<bool>, from: nat, z: nat, index: nat, n: nat, align: nat)
    requires n > 0 && align > 0 && index == AlignUp(z, align)
    requires z == |b| || from <= z < |b|
    requires forall p :: from <= p < z && p < |b| ==> b[p]
    ensures forall i: nat :: from <= i < index ==> !Fits(b, i, n, align)
  {
    forall i: nat | from <= i < index
      ensures !Fits(b, i, n, align)
    {
      if i % align == 0 && i + n <= |b| {
        if i >= z {
          NoneBetween(z, i, align);
        } else {
          assert b[i];
        }
      }
    }
  }

  lemma TooLate(b: seq<bool>, start: nat, index: nat, n: nat, align: nat)
    requires n > 0 && align > 0 && index + n > |b|
    requires forall i: nat :: start <= i < index ==> !Fits(b, i, n, align)
    ensures forall i: nat :: i >= start ==> !Fits(b, i, n, align)
  {
  }

  lemma Blocked(b: seq<bool>, index: nat, busy: nat, n: nat, align: nat)
    requires align > 0 && index <= busy < index + n <= |b| && b[busy]
    ensures forall i: nat :: index <= i <= busy && i % align == 0 ==> !Fits(b, i, n, align)
  {
  }

  // ----- the mapping and the hardware -------------------------------------------------------------

  /** A page is free, allocated but not mapped yet, mapped, or unmapped but not freed yet.  The
      last two transitions are separate steps: fast_smmu_map_sg and fast_smmu_unmap_sg write page
      table entries outside the lock that protects the bitmaps. */
  datatype Phase = Free | Reserved | Mapped | Unmapped

  datatype Pte = Invalid | Page(phys: nat)

  datatype TlbEntry = TlbEntry(page: nat, phys: nat)

  /** The allocator's state, the page table entries, and what the hardware and history add: the
      TLB, and the pages unmapped since it was last invalidated. */
  datatype Domain = Domain(
    bitmap: seq<bool>,
    clean: seq<bool>,
    nextStart: nat,
    stale: bool,
    ptes: seq<Pte>,
    phases: seq<Phase>,
    tlb: set<TlbEntry>,
    unmapped: set<nat>)

  predicate Sized(d: Domain) {
    |d.clean| == |d.bitmap| && |d.ptes| == |d.bitmap| && |d.phases| == |d.bitmap|
  }

  /** The two bitmaps: clean_bitmap covers bitmap, and without stale entries they agree. */
  predicate BitmapsAgree(d: Domain) {
    && Sized(d)
    && (forall p :: 0 <= p < |d.bitmap| && d.bitmap[p] ==> d.clean[p])
    && (!d.stale ==> d.clean == d.bitmap)
  }

  predicate PhasesAgree(d: Domain) {
    && Sized(d)
    && forall p :: 0 <= p < |d.bitmap| ==>
         && (d.bitmap[p] <==> !d.phases[p].Free?)
         && (d.ptes[p].Page? <==> d.phases[p].Mapped?)
  }

  /** What the TLB may hold: nothing for pages that can be handed out or have just been handed
      out, and for a mapped page nothing but its current translation. */
  predicate TlbCoherent(d: Domain) {
    && Sized(d)
    && forall e :: e in d.tlb ==>
         && e.page < |d.bitmap|
         && d.clean[e.page]
         && !d.phases[e.page].Reserved?
         && (d.phases[e.page].Mapped? ==> d.ptes[e.page] == Page(e.phys))
  }

  /** A page unmapped since the last flush is still marked in clean_bitmap. */
  predicate UnmappedMarked(d: Domain) {
    Sized(d) && forall p :: p in d.unmapped ==> p < |d.clean| && d.clean[p]
  }

  predicate Inv(d: Domain) {
    BitmapsAgree(d) && PhasesAgree(d) && TlbCoherent(d) && UnmappedMarked(d)
  }

  function SetPhases(s: seq<Phase>, i: nat, n: nat, v: Phase): (r: seq<Phase>)
    requires i + n <= |s|
    ensures |r| == |s|
    ensures forall p :: 0 <= p < |s| ==> r[p] == if i <= p < i + n then v else s[p]
  {
    seq(|s|, p requires 0 <= p < |s| => if i <= p < i + n then v else s[p])
  }

  predicate AllIn(d: Domain, i: nat, n: nat, v: Phase) {
    Sized(d) && i + n <= |d.bitmap| && forall p :: i <= p < i + n ==> d.phases[p] == v
  }

  /** The flush of the slow path: invalidate the TLB and forget the freed pages. */
  function Flush(d: Domain): Domain {
    d.(clean := d.bitmap, stale := false, tlb := {}, unmapped := {})
  }

  function Take(d: Domain, bit: nat, n: nat): Domain
    requires Sized(d) && bit + n <= |d.bitmap|
  {
    d.(bitmap := SetRange(d.bitmap, bit, n, true),
       clean := SetRange(d.clean, bit, n, true),
       nextStart := if bit + n >= |d.bitmap| then 0 else bit + n,
       phases := SetPhases(d.phases, bit, n, Reserved))
  }

  /** av8l_fast_map over n pages from page i. */
  function Map(d: Domain, i: nat, n: nat, phys: nat -> nat): Domain
    requires Sized(d) && i + n <= |d.bitmap|
  {
    d.(ptes := seq(|d.ptes|, p requires 0 <= p < |d.ptes| => if i <= p < i + n then Page(phys(p)) else d.ptes[p]),
       phases := SetPhases(d.phases, i, n, Mapped))
  }

  /** The pages i, ..., i + n - 1. */
  function Pages(i: nat, n: nat): (r: set<nat>)
    ensures forall p :: p in r <==> i <= p < i + n
  {
    if n == 0 then {} else Pages(i, n - 1) + {i + n - 1}
  }

  /** av8l_fast_unmap_public: clear the entries and leave the TLB alone. */
  function Unmap(d: Domain, i: nat, n: nat): Domain
    requires Sized(d) && i + n <= |d.bitmap|
  {
    d.(ptes := seq(|d.ptes|, p requires 0 <= p < |d.ptes| => if i <= p < i + n then Invalid else d.ptes[p]),
       phases := SetPhases(d.phases, i, n, Unmapped),
       unmapped := d.unmapped + Pages(i, n))
  }

  /** __fast_smmu_free_iova */
  function Release(d: Domain, i: nat, n: nat): Domain
    requires Sized(d) && i + n <= |d.bitmap|
  {
    d.(bitmap := SetRange(d.bitmap, i, n, false), stale := true, phases := SetPhases(d.phases, i, n, Free))
  }

  lemma FlushKeeps(d: Domain)
    requires Inv(d)
    ensures Inv(Flush(d))
  {
  }

  lemma TakeKeeps(d: Domain, bit: nat, n: nat)
    requires Inv(d) && AreaClear(d.clean, bit, n)
    ensures Inv(Take(d, bit, n)) && AllIn(Take(d, bit, n), bit, n, Reserved)
  {
    var d' := Take(d, bit, n);
    if !d.stale {
      assert d'.clean == d'.bitmap;
    }
  }

  lemma MapKeeps(d: Domain, i: nat, n: nat, phys: nat -> nat)
    requires Inv(d) && AllIn(d, i, n, Reserved)
    ensures Inv(Map(d, i, n, phys)) && AllIn(Map(d, i, n, phys), i, n, Mapped)
  {
  }

  lemma UnmapKeeps(d: Domain, i: nat, n: nat)
    requires Inv(d) && AllIn(d, i, n, Mapped)
    ensures Inv(Unmap(d, i, n)) && AllIn(Unmap(d, i, n), i, n, Unmapped)
  {
  }

  lemma ReleaseKeeps(d: Domain, i: nat, n: nat)
    requires Inv(d) && AllIn(d, i, n, Unmapped)
    ensures Inv(Release(d, i, n))
  {
  }

  // ----- every run -----------------------------------------------------------------------------------

  /** What can happen: an allocation (with or without a flush) or a failing one, the separate steps
      of mapping, unmapping and freeing a region, and the hardware loading and dropping entries. */
  datatype Event =
    | Alloc(bit: nat, n: nat, flushed: bool)
    | AllocFails(n: nat, flushed: bool)
    | MapPages(i: nat, n: nat, phys: nat -> nat)
    | UnmapPages(i: nat, n: nat)
    | FreePages(i: nat, n: nat)
    | TlbLoad(page: nat)
    | TlbDrop(entries: set<TlbEntry>)

  function MaybeFlush(d: Domain, flushed: bool): Domain {
    if flushed then Flush(d) else d
  }

  /** The outcome of __fast_smmu_alloc_iova: the TLB is flushed only if stale entries are what
      stands in the way, and the region is taken from what is clear in clean_bitmap. */
  ghost predicate Allocates(d: Domain, bit: nat, n: nat, flushed: bool) {
    && n > 0
    && Fits(MaybeFlush(d, flushed).clean, bit, n, Alignment(n))
    && (flushed ==> d.stale && forall i: nat :: !Fits(d.clean, i, n, Alignment(n)))
  }

  /** It fails after the searches in clean_bitmap, the last one after a flush if there was cause for
      one. */
  ghost predicate AllocationFails(d: Domain, n: nat, flushed: bool) {
    && n > 0 && flushed == d.stale
    && (forall i: nat :: !Fits(d.clean, i, n, Alignment(n)))
    && (forall i: nat :: !Fits(MaybeFlush(d, flushed).clean, i, n, Alignment(n)))
  }

  /** What the code tests, and what its callers keep to: they map what they were given, unmap what
      they mapped and free what they unmapped.  The hardware loads entries that are valid. */
  ghost predicate Enabled(d: Domain, e: Event) {
    && Sized(d)
    && match e
       case Alloc(bit, n, flushed) => Allocates(d, bit, n, flushed)
       case AllocFails(n, flushed) => AllocationFails(d, n, flushed)
       case MapPages(i, n, _) => AllIn(d, i, n, Reserved)
       case UnmapPages(i, n) => AllIn(d, i, n, Mapped)
       case FreePages(i, n) => AllIn(d, i, n, Unmapped)
       case TlbLoad(p) => p < |d.ptes| && d.ptes[p].Page?
       case TlbDrop(_) => true
  }

  ghost function After(d: Domain, e: Event): Domain
    requires Enabled(d, e)
  {
    match e
    case Alloc(bit, n, flushed) => Take(MaybeFlush(d, flushed), bit, n)
    case AllocFails(n, flushed) => MaybeFlush(d, flushed)
    case MapPages(i, n, phys) => Map(d, i, n, phys)
    case UnmapPages(i, n) => Unmap(d, i, n)
    case FreePages(i, n) => Release(d, i, n)
    case TlbLoad(p) => d.(tlb := d.tlb + {TlbEntry(p, d.ptes[p].phys)})
    case TlbDrop(entries) => d.(tlb := d.tlb - entries)
  }

  ghost predicate Steps(d: Domain, e: Event, d': Domain) {
    Enabled(d, e) && d' == After(d, e)
  }

  lemma StepKeeps(d: Domain, e: Event, d': Domain)
    requires Inv(d) && Steps(d, e, d')
    ensures Inv(d')
  {
    match e
    case Alloc(bit, n, flushed) =>
      FlushKeeps(d);
      TakeKeeps(MaybeFlush(d, flushed), bit, n);
    case AllocFails(n, flushed) => FlushKeeps(d);
    case MapPages(i, n, phys) => MapKeeps(d, i, n, phys);
    case UnmapPages(i, n) => UnmapKeeps(d, i, n);
    case FreePages(i, n) => ReleaseKeeps(d, i, n);
    case TlbLoad(p) =>
    case TlbDrop(_) =>
  }

  ghost predicate Run(ds: seq<Domain>, events: seq<Event>) {
    |ds| == |events| + 1 && forall i {:trigger StepAt(ds, events, i)} :: 0 <= i < |events| ==> StepAt(ds, events, i)
  }

  ghost predicate StepAt(ds: seq<Domain>, events: seq<Event>, i: int) {
    0 <= i < |events| && i + 1 < |ds| && Steps(ds[i], events[i], ds[i + 1])
  }

  /** A fresh mapping; some pages may be marked as reserved from the start. */
  function Initial(reserved: seq<bool>): Domain {
    Domain(reserved, reserved, 0, false,
           seq(|reserved|, _ => Invalid),
           seq(|reserved|, p requires 0 <= p < |reserved| => if reserved[p] then Reserved else Free),
           {}, {})
  }

  lemma InitialInv(reserved: seq<bool>)
    ensures Inv(Initial(reserved))
  {
  }

  lemma {:induction false} RunKeeps(ds: seq<Domain>, events: seq<Event>, n: nat)
    requires Run(ds, events) && Inv(ds[0]) && n <= |events|
    ensures Inv(ds[n])
    decreases n
  {
    if n > 0 {
      RunKeeps(ds, events, n - 1);
      assert StepAt(ds, events, n - 1);
      StepKeeps(ds[n - 1], events[n - 1], ds[n]);
    }
  }

  /** The promise of the deferred invalidation: in every state of every run, whatever a device can
      see for a mapped page, through the TLB or by walking the tables, is its current translation. */
  lemma DevicesSeeCurrentTranslations(reserved: seq<bool>, ds: seq<Domain>, events: seq<Event>, n: nat, e: TlbEntry)
    requires Run(ds, events) && ds[0] == Initial(reserved) && n <= |events|
    requires e in ds[n].tlb && e.page < |ds[n].ptes| && ds[n].ptes[e.page].Page?
    ensures ds[n].ptes[e.page] == Page(e.phys)
  {
    InitialInv(reserved);
    RunKeeps(ds, events, n);
  }

  /** No page is handed out again between its unmapping and the next flush. */
  lemma ReuseOnlyAfterFlush(reserved: seq<bool>, ds: seq<Domain>, events: seq<Event>, n: nat, p: nat)
    requires Run(ds, events) && ds[0] == Initial(reserved) && n < |events|
    requires events[n].Alloc? && events[n].bit <= p < events[n].bit + events[n].n
    ensures p in ds[n].unmapped ==> events[n].flushed
    ensures forall e :: e in ds[n + 1].tlb ==> e.page != p
  {
    InitialInv(reserved);
    RunKeeps(ds, events, n);
    RunKeeps(ds, events, n + 1);
    assert StepAt(ds, events, n);
  }

  /** What is clear in clean_bitmap is clear in bitmap. */
  lemma ClearIsClear(d: Domain, bit: nat, n: nat, flushed: bool)
    requires Inv(d) && n > 0 && Fits(MaybeFlush(d, flushed).clean, bit, n, Alignment(n))
    ensures Fits(d.bitmap, bit, n, Alignment(n))
  {
  }

  /** The allocator is complete: it fails only if the true bitmap has no room. */
  lemma FailsOnlyWithoutRoom(d: Domain, n: nat, flushed: bool)
    requires Inv(d) && AllocationFails(d, n, flushed)
    ensures forall i: nat :: !Fits(d.bitmap, i, n, Alignment(n))
  {
    assert MaybeFlush(d, flushed).clean == d.bitmap;
  }
}
