/** Mapping scatterlists in drivers/iommu/qcom-io-pgtable-arm.c: adjacent entries are joined, each
    stretch is cut into the largest pages that fit, and pages that follow one another in the same
    last-level table are entered without walking the tables again. */
module LpaeSg {
  import opened Arith
  import opened LpaePgsize
  import opened LpaePgtable
  import opened LpaeSpec
  import opened LpaeTree

  // ----- page sizes and levels --------------------------------------------------------------------

  /** The size of a block of level l is two to the power of this, for tables of 2^b entries. */
  function Exponent(b: nat, l: nat): nat
    requires l <= LAST
    decreases LAST - l
  {
    if l == LAST then 0 else b + Exponent(b, l + 1)
  }

  lemma {:induction false} PowAdd(i: nat, j: nat)
    ensures Pow2(i + j) == Pow2(i) * Pow2(j)
    decreases i
  {
    if i > 0 {
      PowAdd(i - 1, j);
      assert 2 * (Pow2(i - 1) * Pow2(j)) == 2 * Pow2(i - 1) * Pow2(j);
    }
  }

  lemma {:induction false} BlockIsPower(c: Config, b: nat, l: nat)
    requires c.e == Pow2(b) && l <= LAST
    ensures Block(c, l) == Pow2(Exponent(b, l))
    decreases LAST - l
  {
    if l < LAST {
      BlockIsPower(c, b, l + 1);
      PowAdd(b, Exponent(b, l + 1));
    }
  }

  /** pgsize_bitmap: only block sizes of the levels in use, and always the granule. */
  predicate GoodSizes(c: Config, b: nat, sizes: seq<bool>) {
    && b > 0 && c.e == Pow2(b) && |sizes| > 0 && sizes[0] && c.s <= LAST
    && forall j :: 0 <= j < |sizes| && sizes[j] ==> IsLevel(c, b, LevelOf(b, j), j)
  }

  predicate IsLevel(c: Config, b: nat, l: nat, j: nat) {
    c.s <= l <= LAST && Exponent(b, l) == j
  }

  /** The level for pages of 2^j granules. */
  function LevelOf(b: nat, j: nat): nat {
    if j == 0 then LAST else if j == b then LAST - 1 else if j == b + b then LAST - 2 else LAST - 3
  }

  /** The page size that arm_lpae_pgsize chooses, as a level. */
  method ChooseLevel(c: Config, b: nat, sizes: seq<bool>, iova: nat, paddr: nat, size: nat) returns (k: nat)
    requires GoodSizes(c, b, sizes) && size > 0
    ensures c.s <= k <= LAST && Aligned(c, iova, k) && Block(c, k) <= size
  {
    GranuleUsable(iova, paddr, size);
    var j := PgSize(sizes, iova, paddr, size);
    k := LevelOf(b, j);
    assert IsLevel(c, b, k, j);
    BlockIsPower(c, b, k);
    AlignedOff(c, iova, k);
  }

  lemma {:induction false} GranuleUsable(iova: nat, paddr: nat, size: nat)
    requires size > 0
    ensures Usable(iova, paddr, size, 0)
  {
    DivMod(iova, 1, iova, 0);
    DivMod(paddr, 1, paddr, 0);
  }

  // ----- the map state --------------------------------------------------------------------------------

  /** struct map_state: the last-level table of the page mapped last, the descriptor that points to
      it, and where its addresses end. */
  datatype MapState = NoState | MapState(iovaEnd: nat, table: nat, prev: Prev)

  /** The page before iova lies in the table of the map state. */
  ghost predicate StateFits(pt: PageTable, ms: MapState, iova: nat)
    reads pt
  {
    ms.MapState? ==>
      && ms.table in pt.tables && pt.IsPrev(ms.table, ms.prev) && pt.place[ms.table].lvl == LAST
      && iova > 0 && (iova - 1) / pt.c.e == pt.place[ms.table].num
      && ms.iovaEnd / pt.c.e == pt.place[ms.table].num + 1 && ms.iovaEnd % pt.c.e == 0
  }

  /** Below the end, the table has the entry for iova, and it is not the first one. */
  lemma {:induction false} InsideState(c: Config, num: nat, iovaEnd: nat, iova: nat)
    requires c.e > 0 && iova > 0 && (iova - 1) / c.e == num && iovaEnd / c.e == num + 1 && iovaEnd % c.e == 0
    requires iova < iovaEnd
    ensures iova / c.e == num && iova % c.e > 0
  {
    SplitMod(iova - 1, c.e);
    SplitMod(iovaEnd, c.e);
    assert (num + 1) * c.e == num * c.e + c.e;
    DivMod(iova, c.e, num, iova - num * c.e);
  }

  /** So a larger page cannot start there. */
  lemma {:induction false} OnlyPages(c: Config, iova: nat, k: nat)
    requires c.e > 0 && k <= LAST && Aligned(c, iova, k) && iova % c.e > 0
    ensures k == LAST
  {
    if k < LAST {
      AlignedDown(c, iova, k);
    }
  }

  lemma {:induction false} AlignedDown(c: Config, x: nat, k: nat)
    requires c.e > 0 && k < LAST && Aligned(c, x, k)
    ensures x % c.e == 0
    decreases LAST - k
  {
    if k + 1 < LAST {
      AlignedDown(c, x, k + 1);
    }
  }

  /** The end of the addresses of the last-level table for iova. */
  function TableEnd(c: Config, iova: nat): (r: nat)
    requires c.e > 0
    ensures r / c.e == iova / c.e + 1 && r % c.e == 0
  {
    ModMultiple(iova / c.e + 1, c.e);
    (iova / c.e + 1) * c.e
  }

  /** The fast path: the entry is written in the cached table. */
  method MapCached(pt: PageTable, ms: MapState, iova: nat, paddr: nat, prot: nat) returns (r: MapResult)
    requires pt.Valid() && InRange(pt.c, iova) && StateFits(pt, ms, iova) && ms.MapState? && iova < ms.iovaEnd
    modifies pt`tables
    ensures MapOutcome(pt.c, old(pt.State()), pt.State(), pt.c.s, iova, Span(pt.c, 1, LAST), paddr, LAST, prot, r)
    ensures r.MapOk? ==> StateFits(pt, ms, iova + 1)
    ensures !r.MapOk? ==> r.Exists? && pt.State() == old(pt.State())
  {
    ghost var c, h := pt.c, pt.State();
    InsideState(c, pt.place[ms.table].num, ms.iovaEnd, iova);
    IndexFits(c, h, ms.table, iova);
    var ok := pt.MapHere(ms.table, LAST, ms.prev, iova, paddr, 1, prot);
    r := if ok then MapOk else Exists;
  }

  /** The slow path: from the pgd.  A page sets the map state, a larger block clears it. */
  method MapFromRoot(pt: PageTable, iova: nat, paddr: nat, k: nat, prot: nat) returns (r: MapResult, ms: MapState)
    requires pt.Valid() && InRange(pt.c, iova) && pt.c.s <= k <= LAST && Aligned(pt.c, iova, k)
    modifies pt`tables, pt`pool, pt`place
    ensures MapOutcome(pt.c, old(pt.State()), pt.State(), pt.c.s, iova, Span(pt.c, 1, k), paddr, k, prot, r)
    ensures r.MapOk? ==> StateFits(pt, ms, iova + Block(pt.c, k))
  {
    RootCovers(pt.c, pt.State(), iova);
    var n, at, last;
    r, n, at, last := pt.MapAt(pt.c.root, pt.c.s, NoPrev, iova, paddr, k, 1, prot);
    assert n == 1;
    ms := if k == LAST then MapState(TableEnd(pt.c, iova), at, last) else NoState;
  }

  /** One round of the loop in arm_lpae_map_by_pgsize.  The cached table is used for single pages
      only, and comes to the same as a walk from the pgd. */
  method MapOne(pt: PageTable, ms: MapState, iova: nat, paddr: nat, k: nat, prot: nat)
    returns (r: MapResult, ms': MapState)
    requires pt.Valid() && InRange(pt.c, iova) && pt.c.s <= k <= LAST && Aligned(pt.c, iova, k)
    requires StateFits(pt, ms, iova)
    modifies pt`tables, pt`pool, pt`place
    ensures MapOutcome(pt.c, old(pt.State()), pt.State(), pt.c.s, iova, Span(pt.c, 1, k), paddr, k, prot, r)
    ensures r.MapOk? ==> StateFits(pt, ms', iova + Block(pt.c, k))
  {
    if ms.MapState? && iova < ms.iovaEnd {
      InsideState(pt.c, pt.place[ms.table].num, ms.iovaEnd, iova);
      OnlyPages(pt.c, iova, k);
      r := MapCached(pt, ms, iova, paddr, prot);
      ms' := ms;
    } else {
      r, ms' := MapFromRoot(pt, iova, paddr, k, prot);
    }
  }

  // ----- a stretch of memory --------------------------------------------------------------------------

  lemma {:induction false} MappedJoin(
    c: Config, h0: Heap, h1: Heap, h2: Heap, iova: nat, len1: nat, len2: nat, paddr: nat, prot: nat)
    requires c.e > 0 && c.s <= LAST
    requires Mapped(c, h0, h1, iova, len1, paddr, prot) && Mapped(c, h1, h2, iova + len1, len2, paddr + len1, prot)
    ensures Mapped(c, h0, h2, iova, len1 + len2, paddr, prot)
  {
  }

  lemma {:induction false} RegionMono(c: Config, x: nat, y: nat, l: nat)
    requires c.e > 0 && l <= LAST && x <= y
    ensures Region(c, x, l) <= Region(c, y, l)
    decreases LAST - l
  {
    if l < LAST {
      RegionMono(c, x, y, l + 1);
      DivMono(Region(c, x, l + 1), Region(c, y, l + 1), c.e);
    }
  }

  lemma {:induction false} DivMono(x: nat, y: nat, d: nat)
    requires 0 < d && x <= y
    ensures x / d <= y / d
  {
    DivLower(y, d, x / d);
  }

  /** The addresses below one that is in range are in range. */
  lemma {:induction false} InRangeBelow(c: Config, x: nat, y: nat)
    requires x <= y && InRange(c, y)
    ensures InRange(c, x)
  {
    RegionMono(c, x, y, c.s);
  }

  /** No address of the stretch is mapped. */
  ghost predicate NoneMapped(c: Config, h: Heap, iova: nat, len: nat)
    requires c.e > 0 && c.s <= LAST
  {
    forall x: nat {:trigger Translate(c, h, x)} :: iova <= x < iova + len && InRange(c, x) ==>
      Translate(c, h, x) == Fault
  }

  lemma {:induction false} NothingInTheWay(c: Config, h: Heap, iova: nat, len: nat, k: nat)
    requires c.e > 0 && c.s <= LAST && !InTheWay(c, h, iova, len, k)
    ensures NoneMapped(c, h, iova, len)
  {
    forall x: nat | iova <= x < iova + len && InRange(c, x)
      ensures Translate(c, h, x) == Fault
    {
      assert !InUse(c, h, k, x);
    }
  }

  lemma {:induction false} NoneMappedJoin(
    c: Config, h0: Heap, h: Heap, iova: nat, len1: nat, len2: nat, paddr: nat, prot: nat)
    requires c.e > 0 && c.s <= LAST && NoneMapped(c, h0, iova, len1) && NoneMapped(c, h, iova + len1, len2)
    requires Mapped(c, h0, h, iova, len1, paddr, prot)
    ensures NoneMapped(c, h0, iova, len1 + len2)
  {
    forall x: nat | iova <= x < iova + (len1 + len2) && InRange(c, x)
      ensures Translate(c, h0, x) == Fault
    {
      if x >= iova + len1 {
        assert Translate(c, h, x) == Translate(c, h0, x);
      }
    }
  }

  /** Why a stretch is mapped only up to `mapped`: from the heap h, the next piece could not be
      mapped. */
  ghost predicate StoppedAt(
    c: Config, h0: Heap, h: Heap, h': Heap, iova: nat, mapped: nat, size: nat, paddr: nat, k: nat, prot: nat,
    r: MapResult)
    requires c.e > 0 && c.s <= LAST
  {
    && mapped < size && c.s <= k <= LAST && Block(c, k) <= size - mapped && !r.MapOk?
    && Mapped(c, h0, h, iova, mapped, paddr, prot)
    && MapOutcome(c, h, h', c.s, iova + mapped, Span(c, 1, k), paddr + mapped, k, prot, r)
  }

  /** A piece of the size of a block of level k is mapped, or cannot be. */
  ghost predicate PieceOutcome(
    c: Config, h: Heap, h': Heap, iova: nat, len: nat, paddr: nat, k: nat, prot: nat, r: MapResult)
  {
    c.s <= k <= LAST && len == Span(c, 1, k) == Block(c, k) && MapOutcome(c, h, h', c.s, iova, len, paddr, k, prot, r)
  }

  /** The largest page that fits goes first. */
  method MapPiece(pt: PageTable, b: nat, sizes: seq<bool>, iova: nat, paddr: nat, size: nat, prot: nat, ms: MapState)
    returns (r: MapResult, len: nat, ms': MapState, ghost k: nat)
    requires pt.Valid() && GoodSizes(pt.c, b, sizes) && StateFits(pt, ms, iova) && InRange(pt.c, iova) && size > 0
    modifies pt`tables, pt`pool, pt`place
    ensures 0 < len <= size && PieceOutcome(pt.c, old(pt.State()), pt.State(), iova, len, paddr, k, prot, r)
    ensures r.MapOk? ==> StateFits(pt, ms', iova + len)
  {
    var l := ChooseLevel(pt.c, b, sizes, iova, paddr, size);
    r, ms' := MapOne(pt, ms, iova, paddr, l, prot);
    len, k := Block(pt.c, l), l;
  }

  /** Exactly the first `mapped` pages of the stretch have been mapped; none of them was before, and no
      last-level table has been left empty. */
  ghost predicate MappedSoFar(c: Config, h0: Heap, h: Heap, iova: nat, mapped: nat, paddr: nat, prot: nat) {
    && Inv(c, h) && SamePages(h0, h) && NoNewEmpty(c, h0, h)
    && Mapped(c, h0, h, iova, mapped, paddr, prot) && NoneMapped(c, h0, iova, mapped)
  }

  /** One round of the loop in arm_lpae_map_by_pgsize. */
  method MapNext(
    pt: PageTable, b: nat, sizes: seq<bool>, iova: nat, paddr: nat, size: nat, prot: nat, mapped: nat, ms: MapState,
    ghost h0: Heap)
    returns (r: MapResult, mapped': nat, ms': MapState, ghost k: nat)
    requires GoodSizes(pt.c, b, sizes) && StateFits(pt, ms, iova + mapped) && InRange(pt.c, iova + mapped)
    requires mapped < size
    requires MappedSoFar(pt.c, h0, pt.State(), iova, mapped, paddr, prot)
    modifies pt`tables, pt`pool, pt`place
    ensures MappedSoFar(pt.c, h0, pt.State(), iova, mapped', paddr, prot)
    ensures r.MapOk? ==> mapped < mapped' <= size && StateFits(pt, ms', iova + mapped')
    ensures !r.MapOk? ==>
              && mapped' == mapped
              && StoppedAt(pt.c, h0, old(pt.State()), pt.State(), iova, mapped, size, paddr, k, prot, r)
  {
    ghost var h := pt.State();
    var len;
    r, len, ms', k := MapPiece(pt, b, sizes, iova + mapped, paddr + mapped, size - mapped, prot, ms);
    mapped' := if r.MapOk? then mapped + len else mapped;
    PieceDone(pt.c, h0, h, pt.State(), iova, mapped, mapped', len, size, paddr, k, prot, r);
  }

  /** The loop of arm_lpae_map_by_pgsize. */
  method MapPieces(pt: PageTable, b: nat, sizes: seq<bool>, iova: nat, paddr: nat, size: nat, prot: nat, ms: MapState)
    returns (r: MapResult, mapped: nat, ms': MapState, ghost h: Heap, ghost k: nat)
    requires pt.Valid() && GoodSizes(pt.c, b, sizes) && StateFits(pt, ms, iova)
    requires size > 0 && InRange(pt.c, iova + size - 1)
    modifies pt`tables, pt`pool, pt`place
    ensures MappedSoFar(pt.c, old(pt.State()), pt.State(), iova, mapped, paddr, prot)
    ensures r.MapOk? ==> mapped == size && StateFits(pt, ms', iova + size)
    ensures !r.MapOk? ==> StoppedAt(pt.c, old(pt.State()), h, pt.State(), iova, mapped, size, paddr, k, prot, r)
  {
    ghost var h0 := pt.State();
    r, mapped, ms', h, k := MapOk, 0, ms, h0, LAST;
    while mapped < size
      invariant mapped <= size && r.MapOk? && StateFits(pt, ms', iova + mapped)
      invariant MappedSoFar(pt.c, h0, pt.State(), iova, mapped, paddr, prot)
    {
      h := pt.State();
      InRangeBelow(pt.c, iova + mapped, iova + size - 1);
      r, mapped, ms', k := MapNext(pt, b, sizes, iova, paddr, size, prot, mapped, ms', h0);
      if !r.MapOk? {
        return;
      }
    }
  }

  lemma {:induction false} PieceDone(
    c: Config, h0: Heap, h: Heap, h': Heap, iova: nat, mapped: nat, mapped': nat, len: nat, size: nat, paddr: nat,
    k: nat, prot: nat, r: MapResult)
    requires MappedSoFar(c, h0, h, iova, mapped, paddr, prot) && mapped' == if r.MapOk? then mapped + len else mapped
    requires mapped < size && len <= size - mapped
    requires PieceOutcome(c, h, h', iova + mapped, len, paddr + mapped, k, prot, r)
    ensures MappedSoFar(c, h0, h', iova, mapped', paddr, prot)
    ensures !r.MapOk? ==> StoppedAt(c, h0, h, h', iova, mapped, size, paddr, k, prot, r)
  {
    NoNewEmptyTrans(c, h0, h, h');
    if r.MapOk? {
      NothingInTheWay(c, h, iova + mapped, len, k);
      NoneMappedJoin(c, h0, h, iova, mapped, len, paddr, prot);
      MappedJoin(c, h0, h, h', iova, mapped, len, paddr, prot);
    } else {
      MappedStays(c, h0, h, h', iova, mapped, paddr, prot);
    }
  }

  lemma {:induction false} MappedStays(
    c: Config, h0: Heap, h1: Heap, h2: Heap, iova: nat, len: nat, paddr: nat, prot: nat)
    requires c.e > 0 && c.s <= LAST && Mapped(c, h0, h1, iova, len, paddr, prot) && SameMap(c, h1, h2)
    ensures Mapped(c, h0, h2, iova, len, paddr, prot)
  {
  }

  /** What has become of a stretch. */
  ghost predicate StretchOutcome(
    c: Config, oas: nat, h0: Heap, h: Heap, h': Heap, iova: nat, mapped: nat, size: nat, paddr: nat, k: nat,
    prot: nat, access: bool, r: MapResult)
  {
    && Inv(c, h') && SamePages(h0, h') && NoNewEmpty(c, h0, h') && size > 0
    && (r.OutOfRange? <==> !InRange(c, iova + size - 1) || paddr + size > oas)
    && (!access || r.OutOfRange? ==> h' == h0)
    && (access ==> Mapped(c, h0, h', iova, mapped, paddr, prot) && NoneMapped(c, h0, iova, mapped))
    && (r.MapOk? ==> mapped == size) && (r.OutOfRange? ==> mapped == 0)
    && (!r.MapOk? && !r.OutOfRange? ==> StoppedAt(c, h0, h, h', iova, mapped, size, paddr, k, prot, r))
  }

  /** arm_lpae_map_by_pgsize: exactly [iova, iova + mapped) is mapped, which is all of the request
      if it succeeds.  Without access rights nothing is mapped, but the length is reported. */
  method MapByPgsize(
    pt: PageTable, b: nat, sizes: seq<bool>, iova: nat, paddr: nat, size: nat, prot: nat, access: bool,
    ms: MapState)
    returns (r: MapResult, mapped: nat, ms': MapState, ghost h: Heap, ghost k: nat)
    requires pt.Valid() && GoodSizes(pt.c, b, sizes) && size > 0
    requires access ==> StateFits(pt, ms, iova)
    modifies pt`tables, pt`pool, pt`place
    ensures StretchOutcome(pt.c, pt.oas, old(pt.State()), h, pt.State(), iova, mapped, size, paddr, k, prot, access, r)
    ensures r.MapOk? && access ==> StateFits(pt, ms', iova + size)
  {
    h, k := pt.State(), LAST;
    if !InRange(pt.c, iova + size - 1) || paddr + size > pt.oas {
      r, mapped, ms' := OutOfRange, 0, ms;
    } else if !access {
      r, mapped, ms' := MapOk, size, ms;
    } else {
      r, mapped, ms', h, k := MapPieces(pt, b, sizes, iova, paddr, size, prot, ms);
    }
  }

  // ----- scatterlists -------------------------------------------------------------------------------------

  /** An entry of a scatterlist: sg_phys and the length, in granules. */
  datatype Entry = Entry(phys: nat, len: nat)

  function Run(start: nat, len: nat): (r: seq<nat>)
    ensures |r| == len && forall j :: 0 <= j < len ==> r[j] == start + j
  {
    seq(len, j requires 0 <= j < len => start + j)
  }

  /** The physical pages of the first n entries, in order. */
  function Pages(list: seq<Entry>, n: nat): seq<nat>
    requires n <= |list|
  {
    if n == 0 then [] else Pages(list, n - 1) + Run(list[n - 1].phys, list[n - 1].len)
  }

  /** The list ends with empty entries that all lie exactly at the end of the last one that is not
      empty. */
  predicate TailLost(list: seq<Entry>, n: nat)
    requires n <= |list|
  {
    && n > 1 && list[n - 1].len == 0
    && if list[n - 2].len > 0 then list[n - 1].phys == list[n - 2].phys + list[n - 2].len
       else list[n - 1].phys == list[n - 2].phys && TailLost(list, n - 1)
  }

  /** After the first n entries: the pages dealt with, and the stretch that is held back. */
  ghost predicate Held(list: seq<Entry>, n: nat, done: seq<nat>, start: nat, len: nat) {
    && n <= |list| && done + Run(start, len) == Pages(list, n)
    && (len > 0 <==> n > 0 && (list[n - 1].len > 0 || TailLost(list, n)))
    && (len > 0 ==> start + len == list[n - 1].phys + list[n - 1].len)
  }

  lemma {:induction false} RunJoin(start: nat, len: nat, k: nat)
    ensures Run(start, len) + Run(start + len, k) == Run(start, len + k)
  {
  }

  /** An entry that follows the stretch held back is joined to it. */
  lemma {:induction false} HeldJoins(list: seq<Entry>, n: nat, done: seq<nat>, start: nat, len: nat)
    requires Held(list, n, done, start, len) && n < |list| && len > 0 && list[n].phys == start + len
    ensures Held(list, n + 1, done, start, len + list[n].len)
  {
    RunJoin(start, len, list[n].len);
    assert done + Run(start, len) + Run(list[n].phys, list[n].len) == done + Run(start, len + list[n].len);
  }

  /** Otherwise the stretch is mapped, and the entry starts a new one. */
  lemma {:induction false} HeldStarts(list: seq<Entry>, n: nat, done: seq<nat>, start: nat, len: nat)
    requires Held(list, n, done, start, len) && n < |list| && !(len > 0 && list[n].phys == start + len)
    ensures Held(list, n + 1, done + Run(start, len), list[n].phys, list[n].len)
  {
  }

  /** When all entries have been read, the last one is looked at again, and the stretch held back
      is mapped unless that one seems to follow it. */
  lemma {:induction false} HeldAtEnd(list: seq<Entry>, done: seq<nat>, start: nat, len: nat)
    requires |list| > 0 && Held(list, |list|, done, start, len)
    ensures len > 0 && list[|list| - 1].phys == start + len <==> TailLost(list, |list|)
  {
  }

  /** The pages are mapped in order from iova on, and nothing else has changed. */
  ghost predicate PagesMapped(c: Config, h0: Heap, h: Heap, iova: nat, pages: seq<nat>, prot: nat)
    requires c.e > 0 && c.s <= LAST
  {
    forall x: nat {:trigger Translate(c, h, x)} :: InRange(c, x) ==>
      Translate(c, h, x) ==
      if iova <= x < iova + |pages| then Phys(pages[x - iova], prot) else Translate(c, h0, x)
  }

  lemma {:induction false} PagesThenRun(
    c: Config, h0: Heap, h: Heap, h': Heap, iova: nat, done: seq<nat>, start: nat, len: nat, prot: nat)
    requires c.e > 0 && c.s <= LAST && PagesMapped(c, h0, h, iova, done, prot)
    requires Mapped(c, h, h', iova + |done|, len, start, prot)
    ensures PagesMapped(c, h0, h', iova, done + Run(start, len), prot)
  {
  }

  lemma {:induction false} NoneMappedThen(c: Config, h0: Heap, h: Heap, iova: nat, done: seq<nat>, len: nat, prot: nat)
    requires c.e > 0 && c.s <= LAST && PagesMapped(c, h0, h, iova, done, prot)
    requires NoneMapped(c, h0, iova, |done|) && NoneMapped(c, h, iova + |done|, len)
    ensures NoneMapped(c, h0, iova, |done| + len)
  {
    forall x: nat | iova <= x < iova + (|done| + len) && InRange(c, x)
      ensures Translate(c, h0, x) == Fault
    {
      if x >= iova + |done| {
        assert Translate(c, h, x) == Translate(c, h0, x);
      }
    }
  }

  /** The pages lie in the output range. */
  predicate AllInOutput(pages: seq<nat>, oas: nat) {
    forall j :: 0 <= j < |pages| ==> pages[j] < oas
  }

  /** What has been done so far: the pages are mapped where nothing was, or only counted if there are no
      access rights. */
  ghost predicate SoFar(c: Config, oas: nat, h0: Heap, h: Heap, iova: nat, done: seq<nat>, prot: nat, access: bool) {
    && Inv(c, h) && SamePages(h0, h) && NoNewEmpty(c, h0, h)
    && (access ==> PagesMapped(c, h0, h, iova, done, prot) && NoneMapped(c, h0, iova, |done|) && AllInOutput(done, oas))
    && (!access ==> h == h0)
  }

  /** Why a list is not mapped to its end: the stretch that was being mapped at `at`, how many of its
      pages are mapped, and the heaps before it and before the piece that failed. */
  datatype Reason = Reason(before: Heap, tried: Heap, k: nat, start: nat, len: nat, at: nat, part: nat)

  ghost predicate Explains(c: Config, oas: nat, why: Reason, h: Heap, iova: nat, mapped: nat, prot: nat, r: MapResult)
    requires c.e > 0 && c.s <= LAST
  {
    && why.at + why.part == iova + mapped
    && if r.OutOfRange? then
         why.len > 0 && why.part == 0 && (!InRange(c, why.at + why.len - 1) || why.start + why.len > oas)
       else StoppedAt(c, why.before, why.tried, h, why.at, why.part, why.len, why.start, why.k, prot, r)
  }

  /** The call of arm_lpae_map_by_pgsize in the loop. */
  method Flush(pt: PageTable, b: nat, sizes: seq<bool>, iova: nat, start: nat, len: nat, prot: nat, access: bool,
               mapped: nat, ms: MapState, ghost h0: Heap, ghost done: seq<nat>)
    returns (r: MapResult, mapped': nat, ms': MapState, ghost done': seq<nat>, ghost why: Reason)
    requires SoFar(pt.c, pt.oas, h0, pt.State(), iova, done, prot, access) && mapped == |done|
    requires GoodSizes(pt.c, b, sizes) && len > 0 && (access ==> StateFits(pt, ms, iova + mapped))
    modifies pt`tables, pt`pool, pt`place
    ensures SoFar(pt.c, pt.oas, h0, pt.State(), iova, done', prot, access) && mapped' == |done'|
    ensures done <= done' <= done + Run(start, len)
    ensures r.MapOk? ==> done' == done + Run(start, len) && (access ==> StateFits(pt, ms', iova + mapped'))
    ensures !r.MapOk? ==> Explains(pt.c, pt.oas, why, pt.State(), iova, mapped', prot, r)
  {
    ghost var h := pt.State();
    var m;
    ghost var tried, k;
    r, m, ms', tried, k := MapByPgsize(pt, b, sizes, iova + mapped, start, len, prot, access, ms);
    mapped' := mapped + m;
    why := Reason(h, tried, k, start, len, iova + mapped, m);
    done' := FlushDone(pt.c, pt.oas, h0, pt.State(), iova, done, mapped, mapped', why, prot, access, r);
  }

  lemma {:induction false} FlushDone(
    c: Config, oas: nat, h0: Heap, h': Heap, iova: nat, done: seq<nat>, mapped: nat, mapped': nat, why: Reason,
    prot: nat, access: bool, r: MapResult)
    returns (done': seq<nat>)
    requires SoFar(c, oas, h0, why.before, iova, done, prot, access) && mapped == |done|
    requires why.at == iova + mapped && mapped' == mapped + why.part
    requires StretchOutcome(
               c, oas, why.before, why.tried, h', why.at, why.part, why.len, why.start, why.k, prot, access, r)
    ensures SoFar(c, oas, h0, h', iova, done', prot, access) && |done'| == mapped'
    ensures done <= done' <= done + Run(why.start, why.len)
    ensures r.MapOk? ==> done' == done + Run(why.start, why.len) && why.part == why.len
    ensures !r.MapOk? ==> Explains(c, oas, why, h', iova, mapped', prot, r)
  {
    FlushFacts(c, oas, h', iova, mapped', why, prot, access, r);
    MoreSoFar(c, oas, h0, why.before, h', iova, done, why.at, why.start, why.part, prot, access);
    done' := done + Run(why.start, why.part);
    RunPrefix(why.start, why.part, why.len);
  }

  lemma {:induction false} FlushFacts(
    c: Config, oas: nat, h': Heap, iova: nat, mapped': nat, why: Reason, prot: nat, access: bool, r: MapResult)
    requires c.e > 0 && c.s <= LAST && why.at + why.part == iova + mapped'
    requires StretchOutcome(
               c, oas, why.before, why.tried, h', why.at, why.part, why.len, why.start, why.k, prot, access, r)
    ensures why.part <= why.len && (why.part > 0 ==> why.start + why.part <= oas)
    ensures !r.MapOk? ==> Explains(c, oas, why, h', iova, mapped', prot, r)
  {
  }

  lemma {:induction false} MoreSoFar(
    c: Config, oas: nat, h0: Heap, h: Heap, h': Heap, iova: nat, done: seq<nat>, at: nat, start: nat, m: nat,
    prot: nat, access: bool)
    requires SoFar(c, oas, h0, h, iova, done, prot, access) && at == iova + |done| && (m > 0 ==> start + m <= oas)
    requires Inv(c, h') && SamePages(h, h') && NoNewEmpty(c, h, h') && (!access ==> h' == h)
    requires access ==> Mapped(c, h, h', at, m, start, prot) && NoneMapped(c, h, at, m)
    ensures SoFar(c, oas, h0, h', iova, done + Run(start, m), prot, access)
  {
    NoNewEmptyTrans(c, h0, h, h');
    if access {
      NoneMappedThen(c, h0, h, iova, done, m, prot);
      PagesThenRun(c, h0, h, h', iova, done, start, m, prot);
    }
  }

  /** One round of the loop in qcom_arm_lpae_map_sg for entry s. */
  method Round(
    pt: PageTable, b: nat, sizes: seq<bool>, iova: nat, s: Entry, start: nat, len: nat, prot: nat, access: bool,
    mapped: nat, ms: MapState, ghost h0: Heap, ghost done: seq<nat>)
    returns (r: MapResult, start': nat, len': nat, mapped': nat, ms': MapState, ghost done': seq<nat>,
             ghost why: Reason)
    requires SoFar(pt.c, pt.oas, h0, pt.State(), iova, done, prot, access) && mapped == |done|
    requires GoodSizes(pt.c, b, sizes) && (access ==> StateFits(pt, ms, iova + mapped))
    modifies pt`tables, pt`pool, pt`place
    ensures SoFar(pt.c, pt.oas, h0, pt.State(), iova, done', prot, access) && mapped' == |done'|
    ensures done <= done' <= done + Run(start, len)
    ensures r.MapOk? && len > 0 && s.phys == start + len ==> done' == done && start' == start && len' == len + s.len
    ensures r.MapOk? && !(len > 0 && s.phys == start + len) ==>
              done' == done + Run(start, len) && start' == s.phys && len' == s.len
    ensures r.MapOk? && access ==> StateFits(pt, ms', iova + mapped')
    ensures !r.MapOk? ==> Explains(pt.c, pt.oas, why, pt.State(), iova, mapped', prot, r)
  {
    r, start', len', mapped', ms', done' := MapOk, start, len, mapped, ms, done;
    why := Reason(h0, h0, 0, start, len, iova, mapped);
    if len > 0 && s.phys != start + len {
      r, mapped', ms', done', why := Flush(pt, b, sizes, iova, start, len, prot, access, mapped, ms, h0, done);
      if !r.MapOk? {
        return;
      }
      len' := 0;
    }
    if len' > 0 {
      len' := len' + s.len;
    } else {
      len', start' := s.len, s.phys;
    }
  }

  lemma {:induction false} RunPrefix(start: nat, k: nat, len: nat)
    requires k <= len
    ensures Run(start, k) <= Run(start, len)
  {
  }

  /** Between two rounds; the last round, after all entries, maps the stretch held back or loses it. */
  ghost predicate Reading(list: seq<Entry>, i: nat, done: seq<nat>, start: nat, len: nat) {
    if i <= |list| then Held(list, i, done, start, len)
    else done <= Pages(list, |list|) && (done == Pages(list, |list|) <==> !TailLost(list, |list|))
  }

  /** The round for entry i of the list. */
  method Read(
    pt: PageTable, b: nat, sizes: seq<bool>, iova: nat, list: seq<Entry>, ghost i: nat, sg: nat, start: nat,
    len: nat, prot: nat, access: bool, mapped: nat, ms: MapState, ghost h0: Heap, ghost done: seq<nat>)
    returns (r: MapResult, start': nat, len': nat, mapped': nat, ms': MapState, ghost done': seq<nat>,
             ghost why: Reason)
    requires SoFar(pt.c, pt.oas, h0, pt.State(), iova, done, prot, access) && mapped == |done|
    requires |list| > 0 && i <= |list| && Reading(list, i, done, start, len)
    requires sg == if i < |list| then i else |list| - 1
    requires GoodSizes(pt.c, b, sizes) && (access ==> StateFits(pt, ms, iova + mapped))
    modifies pt`tables, pt`pool, pt`place
    ensures SoFar(pt.c, pt.oas, h0, pt.State(), iova, done', prot, access) && mapped' == |done'|
    ensures done' <= Pages(list, |list|)
    ensures r.MapOk? ==> Reading(list, i + 1, done', start', len') && (access ==> StateFits(pt, ms', iova + mapped'))
    ensures !r.MapOk? ==> Explains(pt.c, pt.oas, why, pt.State(), iova, mapped', prot, r)
  {
    PagesPrefix(list, i, |list|);
    r, start', len', mapped', ms', done', why :=
      Round(pt, b, sizes, iova, list[sg], start, len, prot, access, mapped, ms, h0, done);
    Advance(list, i, done, start, len);
  }

  /** The loop of qcom_arm_lpae_map_sg. */
  method ReadAll(pt: PageTable, b: nat, sizes: seq<bool>, iova: nat, list: seq<Entry>, prot: nat, access: bool)
    returns (r: MapResult, mapped: nat, ghost why: Reason, ghost done: seq<nat>)
    requires pt.Valid() && GoodSizes(pt.c, b, sizes) && |list| > 0
    modifies pt`tables, pt`pool, pt`place
    ensures done <= Pages(list, |list|) && mapped == |done|
    ensures SoFar(pt.c, pt.oas, old(pt.State()), pt.State(), iova, done, prot, access)
    ensures r.MapOk? ==> (done == Pages(list, |list|) <==> !TailLost(list, |list|))
    ensures !r.MapOk? ==> Explains(pt.c, pt.oas, why, pt.State(), iova, mapped, prot, r)
  {
    ghost var h0 := pt.State();
    var start, len, ms, i, sg := 0, 0, NoState, 0, 0;
    mapped, r, why, done := 0, MapOk, Reason(h0, h0, 0, 0, 0, 0, 0), [];
    assert Run(0, 0) == [];
    while i <= |list|
      invariant i <= |list| + 1 && sg == if i < |list| then i else |list| - 1
      invariant Reading(list, i, done, start, len)
      invariant SoFar(pt.c, pt.oas, h0, pt.State(), iova, done, prot, access) && mapped == |done| && r.MapOk?
      invariant access ==> StateFits(pt, ms, iova + mapped)
    {
      r, start, len, mapped, ms, done, why :=
        Read(pt, b, sizes, iova, list, i, sg, start, len, prot, access, mapped, ms, h0, done);
      if !r.MapOk? {
        return;
      }
      i := i + 1;
      if i < |list| {
        sg := sg + 1;
      }
    }
  }

  /** qcom_arm_lpae_map_sg: the list's pages are mapped in order, as far as `mapped` says.  If the
      call succeeds that is all of them, unless the list ends with empty entries that lie exactly
      at the end of the last one that is not empty: then the stretch before them is lost. */
  method MapSg(pt: PageTable, b: nat, sizes: seq<bool>, iova: nat, list: seq<Entry>, prot: nat, access: bool)
    returns (r: MapResult, mapped: nat, ghost why: Reason)
    requires pt.Valid() && GoodSizes(pt.c, b, sizes)
    modifies pt`tables, pt`pool, pt`place
    ensures mapped <= |Pages(list, |list|)|
    ensures SoFar(pt.c, pt.oas, old(pt.State()), pt.State(), iova, Pages(list, |list|)[..mapped], prot, access)
    ensures r.MapOk? ==> (mapped == |Pages(list, |list|)| <==> !TailLost(list, |list|))
    ensures !r.MapOk? ==> Explains(pt.c, pt.oas, why, pt.State(), iova, mapped, prot, r)
    ensures NoneEmpty(pt.c, old(pt.State())) ==> NoneEmpty(pt.c, pt.State())
  {
    if |list| == 0 {
      // The one round that there is only remembers an entry.
      r, mapped, why := MapOk, 0, Reason(pt.State(), pt.State(), 0, 0, 0, 0, 0);
    } else {
      ghost var done;
      r, mapped, why, done := ReadAll(pt, b, sizes, iova, list, prot, access);
      assert Pages(list, |list|)[..mapped] == done;
    }
  }

  /** For instance, a page followed by an empty entry at its end: nothing is mapped. */
  lemma {:induction false} EmptyEntryLosesPage(phys: nat)
    ensures TailLost([Entry(phys, 1), Entry(phys + 1, 0)], 2) && |Pages([Entry(phys, 1), Entry(phys + 1, 0)], 2)| == 1
  {
    var list := [Entry(phys, 1), Entry(phys + 1, 0)];
    assert |Pages(list, 1)| == 1;
  }

  lemma {:induction false} PagesPrefix(list: seq<Entry>, i: nat, n: nat)
    requires i <= n <= |list|
    ensures Pages(list, i) <= Pages(list, n)
    decreases n
  {
    if i < n {
      PagesPrefix(list, i, n - 1);
    }
  }

  /** How a round changes what is held back. */
  lemma {:induction false} Advance(list: seq<Entry>, i: nat, done: seq<nat>, start: nat, len: nat)
    requires |list| > 0 && i <= |list| && Held(list, i, done, start, len)
    ensures i < |list| && len > 0 && list[i].phys == start + len ==> Held(list, i + 1, done, start, len + list[i].len)
    ensures i < |list| && !(len > 0 && list[i].phys == start + len) ==>
              Held(list, i + 1, done + Run(start, len), list[i].phys, list[i].len)
    ensures i == |list| ==> (len > 0 && list[i - 1].phys == start + len <==> TailLost(list, i))
    ensures done <= Pages(list, i) && (done == Pages(list, i) <==> len == 0)
  {
    if i == |list| {
      HeldAtEnd(list, done, start, len);
    } else if len > 0 && list[i].phys == start + len {
      HeldJoins(list, i, done, start, len);
    } else {
      HeldStarts(list, i, done, start, len);
    }
  }
}
