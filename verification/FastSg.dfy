/** Mapping a scatterlist (fast_smmu_map_sg and fast_smmu_unmap_sg in
    drivers/iommu/dma-mapping-fast.c): the list is prepared, mapped segment by segment into one
    IOVA region, and given back with DMA segments. */
module FastSg {
  import opened ScatterList
  import opened FastPgtable

  // ----- filling the page table -------------------------------------------------------------------

  /** sg_phys of a prepared segment */
  function SegPhys(s: Segment): nat {
    s.phys + s.offset
  }

  /** The entry for the page that holds address a of a segment mapped at `at`. */
  function SegEntry(s: Segment, at: nat, prot: nat, a: nat): Entry
    requires at <= a
  {
    Leaf(SegPhys(s) + (a - at) / SZ_4K * SZ_4K, prot)
  }

  /** What the hardware finds for every address of the range. */
  datatype View = View(base: nat, end: nat, entry: nat -> Entry)

  ghost function ViewOf(t: FastTable): (v: View)
    requires t.Valid()
    ensures v.base == t.base && v.end == t.end
    ensures forall a :: v.base <= a < v.end ==> v.entry(a) == t.EntryAt(a)
    reads t
  {
    var mem, base, end, first := t.mem, t.base, t.end, t.first;
    View(base, end, (a: nat) =>
      if Populated(mem, base, end, first) && base <= a < end then
        FlatSlotIsWalkSlot(mem, base, end, first, a); Lookup(mem, WalkSlot(mem, a))
      else Other)
  }

  /** Segment s is mapped at `at`. */
  ghost predicate MappedAt(v: View, s: Segment, at: nat, prot: nat) {
    && v.base <= at && at + s.length <= v.end
    && forall a: nat :: at <= a < at + s.length ==> v.entry(a) == SegEntry(s, at, prot, a)
  }

  ghost predicate SegmentMapped(v: View, p: seq<Segment>, iova: nat, prot: nat, i: nat) {
    i < |p| && MappedAt(v, p[i], iova + Start(p, i), prot)
  }

  ghost predicate AllMapped(v: View, p: seq<Segment>, iova: nat, prot: nat, n: nat) {
    forall i :: 0 <= i < n ==> SegmentMapped(v, p, iova, prot, i)
  }

  /** Nothing outside [lo, hi) has changed. */
  ghost predicate Untouched(v: View, v': View, lo: nat, hi: nat) {
    && v'.base == v.base && v'.end == v.end
    && forall a: nat :: v.base <= a < v.end && !(lo <= a < hi) ==> v'.entry(a) == v.entry(a)
  }

  ghost predicate SegmentSet(v: View, v': View, s: Segment, at: nat, prot: nat) {
    && v'.base == v.base <= at && v'.end == v.end && at + s.length <= v.end
    && forall a: nat :: v.base <= a < v.end ==>
         v'.entry(a) == if at <= a < at + s.length then SegEntry(s, at, prot, a) else v.entry(a)
  }

  lemma {:induction false} OthersStayMapped(v: View, v': View, s: Segment, at: nat, s': Segment, at': nat, prot: nat)
    requires MappedAt(v, s, at, prot) && SegmentSet(v, v', s', at', prot) && at + s.length <= at'
    ensures MappedAt(v', s, at, prot)
  {
  }

  lemma {:induction false} EarlierStaysMapped(v: View, v': View, p: seq<Segment>, iova: nat, prot: nat, n: nat, i: nat)
    requires i < n < |p| && SegmentMapped(v, p, iova, prot, i) && SegmentSet(v, v', p[n], iova + Start(p, n), prot)
    ensures SegmentMapped(v', p, iova, prot, i)
  {
    StartMono(p, i + 1, n);
    OthersStayMapped(v, v', p[i], iova + Start(p, i), p[n], iova + Start(p, n), prot);
  }

  lemma {:induction false} NewIsMapped(v: View, v': View, s: Segment, at: nat, prot: nat)
    requires SegmentSet(v, v', s, at, prot)
    ensures MappedAt(v', s, at, prot)
  {
  }

  lemma {:induction false} MapNext(v: View, v': View, p: seq<Segment>, iova: nat, prot: nat, n: nat)
    requires n < |p| && AllMapped(v, p, iova, prot, n) && SegmentSet(v, v', p[n], iova + Start(p, n), prot)
    ensures AllMapped(v', p, iova, prot, n + 1)
  {
    forall i | 0 <= i < n + 1
      ensures SegmentMapped(v', p, iova, prot, i)
    {
      if i < n {
        EarlierStaysMapped(v, v', p, iova, prot, n, i);
      } else {
        NewIsMapped(v, v', p[n], iova + Start(p, n), prot);
      }
    }
  }

  lemma {:induction false} UntouchedNext(v0: View, v: View, v': View, s: Segment, lo: nat, at: nat, prot: nat)
    requires Untouched(v0, v, lo, at) && lo <= at && SegmentSet(v, v', s, at, prot)
    ensures Untouched(v0, v', lo, at + s.length)
  {
  }

  /** The first n segments are mapped, and nothing else has changed. */
  ghost predicate MappedUpTo(v0: View, v: View, p: seq<Segment>, iova: nat, prot: nat, n: nat) {
    n <= |p| && AllMapped(v, p, iova, prot, n) && Untouched(v0, v, iova, iova + Start(p, n))
  }

  lemma {:induction false} MapNextUpTo(v0: View, v: View, v': View, p: seq<Segment>, iova: nat, prot: nat, n: nat)
    requires n < |p| && MappedUpTo(v0, v, p, iova, prot, n) && SegmentSet(v, v', p[n], iova + Start(p, n), prot)
    ensures MappedUpTo(v0, v', p, iova, prot, n + 1)
  {
    MapNext(v, v', p, iova, prot, n);
    UntouchedNext(v0, v, v', p[n], iova, iova + Start(p, n), prot);
  }

  /** Whole pages at page addresses. */
  predicate WholePages(s: Segment) {
    s.length % SZ_4K == 0 && SegPhys(s) % SZ_4K == 0
  }

  predicate Paged(p: seq<Segment>) {
    forall i :: 0 <= i < |p| ==> WholePages(p[i])
  }

  lemma {:induction false} StartPaged(p: seq<Segment>, k: nat)
    requires Paged(p) && k <= |p|
    ensures Start(p, k) % SZ_4K == 0
    decreases k
  {
    if k > 0 {
      StartPaged(p, k - 1);
      assert WholePages(p[k - 1]);
      SumPaged(Start(p, k - 1), p[k - 1].length);
    }
  }

  lemma {:induction false} SumPaged(x: nat, y: nat)
    requires x % SZ_4K == 0 && y % SZ_4K == 0
    ensures (x + y) % SZ_4K == 0
  {
  }

  lemma {:induction false} PageOf(at: nat, len: nat, a: nat)
    requires at % SZ_4K == 0 && len % SZ_4K == 0
    ensures at <= a < at + len <==> 0 <= a / SZ_4K - at / SZ_4K < len / SZ_4K
    ensures at <= a ==> (a - at) / SZ_4K == a / SZ_4K - at / SZ_4K
  {
  }

  /** av8l_fast_map for one segment */
  method MapSegment(t: FastTable, at: nat, s: Segment, prot: nat)
    requires t.Valid() && t.base <= at && at + s.length <= t.end
    requires at % SZ_4K == 0 && WholePages(s)
    modifies t
    ensures t.Valid() && SegmentSet(old(ViewOf(t)), ViewOf(t), s, at, prot)
  {
    var _ := t.Map(at, SegPhys(s), s.length, prot);
    forall a | t.base <= a < t.end
      ensures t.EntryAt(a) == if at <= a < at + s.length then SegEntry(s, at, prot, a) else old(t.EntryAt(a))
    {
      PageOf(at, s.length, a);
    }
  }

  lemma {:induction false} PlaceOfNth(p: seq<Segment>, iova: nat, i: nat)
    requires Paged(p) && i < |p| && iova % SZ_4K == 0
    ensures (iova + Start(p, i)) % SZ_4K == 0 && WholePages(p[i])
    ensures Start(p, i) + p[i].length <= TotalLength(p)
  {
    StartMono(p, i + 1, |p|);
    StartPaged(p, i);
    SumPaged(iova, Start(p, i));
  }

  /** av8l_fast_map_sg: each segment is mapped after the one before it, and nothing else changes. */
  method MapSegments(t: FastTable, list: array<Segment>, iova: nat, prot: nat) returns (mapped: nat)
    requires t.Valid() && t.base <= iova && iova % SZ_4K == 0 && Paged(list[..])
    requires iova + TotalLength(list[..]) <= t.end
    modifies t
    ensures t.Valid() && mapped == TotalLength(list[..])
    ensures MappedUpTo(old(ViewOf(t)), ViewOf(t), list[..], iova, prot, list.Length)
  {
    ghost var p, v0 := list[..], ViewOf(t);
    var i := 0;
    mapped := 0;
    while i < list.Length
      invariant 0 <= i <= list.Length && t.Valid() && mapped == Start(p, i)
      invariant MappedUpTo(v0, ViewOf(t), p, iova, prot, i)
    {
      PlaceOfNth(p, iova, i);
      ghost var v := ViewOf(t);
      assert list[i] == p[i];
      MapSegment(t, iova + mapped, list[i], prot);
      MapNextUpTo(v0, v, ViewOf(t), p, iova, prot, i);
      mapped := mapped + list[i].length;
      i := i + 1;
    }
  }

  // ----- what the device sees ------------------------------------------------------------------------

  /** The physical bytes of the first n segments of the caller's list, in order. */
  function MemoryBytes(o: seq<Segment>, n: nat): seq<nat>
    requires n <= |o|
  {
    if n == 0 then [] else MemoryBytes(o, n - 1) + Bytes(o[n - 1].phys + o[n - 1].offset, o[n - 1].length)
  }

  /** av8l_fast_iova_to_phys */
  ghost function Translate(v: View, a: nat): Translation {
    if v.base <= a < v.end && v.entry(a).Leaf? then Phys(v.entry(a).phys + a % SZ_4K) else Fault
  }

  /** The device that uses these addresses in order reaches these bytes in order. */
  ghost predicate Reaches(v: View, addrs: seq<nat>, bytes: seq<nat>) {
    |addrs| == |bytes| && forall g :: 0 <= g < |addrs| ==> Translate(v, addrs[g]) == Phys(bytes[g])
  }

  lemma {:induction false} PageSplit(at: nat, x: nat)
    requires at % SZ_4K == 0
    ensures x / SZ_4K * SZ_4K + (at + x) % SZ_4K == x
  {
  }

  lemma {:induction false} ByteReached(v: View, o: Segment, s: Segment, at: nat, prot: nat, g: nat)
    requires MappedAt(v, s, at, prot) && at % SZ_4K == 0
    requires s.phys == o.phys && o.offset == s.offset + s.dmaAddr && s.dmaAddr + g < s.length
    ensures Translate(v, at + s.dmaAddr + g) == Phys(o.phys + o.offset + g)
  {
    var x := s.dmaAddr + g;
    assert v.entry(at + x) == SegEntry(s, at, prot, at + x);
    PageSplit(at, x);
  }

  lemma {:induction false} SegmentReaches(v: View, o: Segment, s: Segment, at: nat, prot: nat)
    requires MappedAt(v, s, at, prot) && at % SZ_4K == 0
    requires s.phys == o.phys && o.offset == s.offset + s.dmaAddr && s.dmaAddr + o.length <= s.length
    ensures Reaches(v, Bytes(at + s.dmaAddr, o.length), Bytes(o.phys + o.offset, o.length))
  {
    var addrs, bytes := Bytes(at + s.dmaAddr, o.length), Bytes(o.phys + o.offset, o.length);
    forall g | 0 <= g < |addrs|
      ensures Translate(v, addrs[g]) == Phys(bytes[g])
    {
      ByteReached(v, o, s, at, prot, g);
    }
  }

  lemma {:induction false} ReachesConcat(v: View, addrs: seq<nat>, bytes: seq<nat>, addrs': seq<nat>, bytes': seq<nat>)
    requires Reaches(v, addrs, bytes) && Reaches(v, addrs', bytes')
    ensures Reaches(v, addrs + addrs', bytes + bytes')
  {
  }

  lemma {:induction false} PlacedReaches(v: View, o: seq<Segment>, p: seq<Segment>, iova: nat, prot: nat, n: nat)
    requires Prepared(o, p) && Paged(p) && n <= |o| && iova % SZ_4K == 0 && AllMapped(v, p, iova, prot, |p|)
    ensures Reaches(v, PlacedBytes(o, p, iova, n), MemoryBytes(o, n))
    decreases n
  {
    if n > 0 {
      PlacedReaches(v, o, p, iova, prot, n - 1);
      NthReaches(v, o, p, iova, prot, n - 1);
      ReachesConcat(v, PlacedBytes(o, p, iova, n - 1), MemoryBytes(o, n - 1),
                    Bytes(iova + Start(p, n - 1) + PageOffset(o[n - 1]), o[n - 1].length),
                    Bytes(o[n - 1].phys + o[n - 1].offset, o[n - 1].length));
    }
  }

  lemma {:induction false} NthReaches(v: View, o: seq<Segment>, p: seq<Segment>, iova: nat, prot: nat, i: nat)
    requires Prepared(o, p) && Paged(p) && i < |o| && iova % SZ_4K == 0 && AllMapped(v, p, iova, prot, |p|)
    ensures Reaches(v, Bytes(iova + Start(p, i) + PageOffset(o[i]), o[i].length),
                    Bytes(o[i].phys + o[i].offset, o[i].length))
  {
    PlaceOfNth(p, iova, i);
    assert SegmentMapped(v, p, iova, prot, i);
    assert PreparedOne(o[i], p[i]);
    PreparedSpan(o[i], p[i]);
    SegmentReaches(v, o[i], p[i], iova + Start(p, i), prot);
  }

  lemma {:induction false} OffsetAligned(s: Segment)
    requires s.phys % SZ_4K == 0
    ensures (s.phys + (s.offset - PageOffset(s))) % SZ_4K == 0
  {
  }

  predicate AtPages(o: seq<Segment>) {
    forall i :: 0 <= i < |o| ==> o[i].phys % SZ_4K == 0
  }

  lemma {:induction false} PreparedIsPaged(o: seq<Segment>, p: seq<Segment>)
    requires Prepared(o, p) && AtPages(o)
    ensures Paged(p)
  {
    forall i | 0 <= i < |p|
      ensures WholePages(p[i])
    {
      assert PreparedOne(o[i], p[i]);
      OffsetAligned(o[i]);
    }
  }

  /** fast_smmu_map_sg once it has prepared the list and been given IOVA space for it: using the
      DMA segments in order, the device reaches the list's bytes in order; no address outside the
      allocation is affected; the list's own fields are back. */
  method MapPrepared(t: FastTable, a: array<Segment>, ghost o: seq<Segment>, iova: nat, lim: Limits, prot: nat)
    returns (count: nat, ghost f: Final)
    requires t.Valid() && lim.boundary > 0 && Prepared(o, a[..]) && AtPages(o)
    requires t.base <= iova && iova % SZ_4K == 0 && iova + TotalLength(a[..]) <= t.end
    modifies t, a
    ensures t.Valid() && count == |f.out| <= a.Length && f == FinalRun(lim, old(a[..]), iova, a.Length)
    ensures ListIs(a[..], o, old(a[..]), f.out, a.Length) && Paged(old(a[..]))
    ensures Finalised(o, old(a[..]), iova, a.Length, f) && Promised(lim, o, old(a[..]), iova, f)
    ensures AllMapped(ViewOf(t), old(a[..]), iova, prot, a.Length)
    ensures Reaches(ViewOf(t), DmaBytes(f.out), MemoryBytes(o, |o|))
    ensures Untouched(old(ViewOf(t)), ViewOf(t), iova, iova + TotalLength(old(a[..])))
  {
    ghost var p := a[..];
    PreparedIsPaged(o, p);
    var _ := MapSegments(t, a, iova, prot);
    PlacedReaches(ViewOf(t), o, p, iova, prot, |o|);
    ghost var v := ViewOf(t);
    count, f := FinaliseSg(a, o, iova, lim);
    assert ViewOf(t) == v;
  }

  /** Every byte of the allocation belongs to a segment, padding included. */
  lemma {:induction false} SegmentOf(p: seq<Segment>, x: nat, n: nat) returns (i: nat)
    requires n <= |p| && x < Start(p, n)
    ensures i < n && Start(p, i) <= x < Start(p, i) + p[i].length
    decreases n
  {
    if x < Start(p, n - 1) {
      i := SegmentOf(p, x, n - 1);
    } else {
      i := n - 1;
    }
  }

  lemma {:induction false} AllocationMapped(v: View, p: seq<Segment>, iova: nat, prot: nat, x: nat)
    requires AllMapped(v, p, iova, prot, |p|) && iova <= x < iova + TotalLength(p)
    ensures v.entry(x).Leaf?
  {
    var i := SegmentOf(p, x - iova, |p|);
    assert SegmentMapped(v, p, iova, prot, i);
  }

  // ----- unmapping ------------------------------------------------------------------------------------

  lemma {:induction false} RoundUpAdd(at: nat, x: nat)
    requires at % SZ_4K == 0
    ensures RoundUp(at + x) == at + RoundUp(x)
  {
  }

  lemma {:induction false} OffsetBelow(iova: nat, s: Segment)
    requires iova % SZ_4K == 0
    ensures (iova + PageOffset(s)) % SZ_4K == PageOffset(s)
  {
  }

  lemma {:induction false} PageOfFirst(iova: nat, s: Segment, first: nat)
    requires iova % SZ_4K == 0 && first == iova + PageOffset(s)
    ensures first - first % SZ_4K == iova
  {
    OffsetBelow(iova, s);
  }

  /** The DMA length of each entry of the finished list. */
  lemma {:induction false} DmaLengthAt(list: seq<Segment>, o: seq<Segment>, p: seq<Segment>, out: seq<Dma>, k: nat)
    requires k < |list| && ListIs(list, o, p, out, |list|)
    ensures list[k].dmaLen != 0 <==> k < |out| && out[k].len > 0
    ensures k < |out| ==> list[k].dmaAddr == out[k].addr && list[k].dmaLen == out[k].len
  {
    assert list[k] == FinalSegment(o, p, out, |list|, k);
  }

  // ----- how far the scan comes ------------------------------------------------------------------------

  /** The last DMA segment before an empty one, after segment k. */
  function LastScanned(out: seq<Dma>, k: nat): nat
    decreases |out| - k
  {
    if k + 1 < |out| && out[k + 1].len > 0 then LastScanned(out, k + 1) else k
  }

  lemma {:induction false} ScanStopsAt(out: seq<Dma>, i: nat, k: nat)
    requires i < k <= |out| && (forall j :: i < j < k ==> out[j].len > 0) && (k < |out| ==> out[k].len == 0)
    ensures LastScanned(out, i) == k - 1
    decreases k - i
  {
    if i + 1 < k {
      ScanStopsAt(out, i + 1, k);
    }
  }

  /** Segment i ends where its IOVA space does. */
  predicate EndsFlush(o: Segment, p: Segment) {
    PageOffset(o) + o.length == p.length
  }

  /** Segment m of the list is empty, and does not directly follow a piece that it could be joined to:
      it gets an empty DMA segment of its own, at which the scan stops. */
  predicate EndsScan(boundary: nat, o: seq<Segment>, p: seq<Segment>, iova: nat, m: int)
    requires boundary > 0
  {
    && 0 < m < |o| == |p| && o[m].length == 0
    && !(&& EndsFlush(o[m - 1], p[m - 1]) && (m > 1 || o[0].length > 0)
         && PageOffset(o[m]) == 0 && Beyond(iova + Start(p, m), boundary) != 0)
  }

  predicate NoneEnds(boundary: nat, o: seq<Segment>, p: seq<Segment>, iova: nat, n: nat)
    requires boundary > 0
  {
    forall m :: 0 < m < n ==> !EndsScan(boundary, o, p, iova, m)
  }

  /** While there was no such segment: no DMA segment but the first is empty, and the last one may
      grow exactly if it is not empty and the last segment ended flush. */
  predicate Going(o: seq<Segment>, p: seq<Segment>, n: nat, f: Final)
    requires n <= |o| == |p|
  {
    && (forall k :: 0 < k < |f.out| ==> f.out[k].len > 0)
    && (n > 0 ==> f.out != [] && (f.out[|f.out| - 1].len > 0 <==> n > 1 || o[0].length > 0))
    && (n > 0 ==> (f.curLen > 0 <==> EndsFlush(o[n - 1], p[n - 1]) && (n > 1 || o[0].length > 0)))
  }

  lemma {:induction false} GoesOn(lim: Limits, o: seq<Segment>, p: seq<Segment>, iova: nat, n: nat, f: Final)
    requires lim.boundary > 0 && |o| == |p| && n < |o| && PreparedOne(o[n], p[n]) && Finalised(o, p, iova, n, f)
    requires Going(o, p, n, f) && !EndsScan(lim.boundary, o, p, iova, n)
    ensures Going(o, p, n + 1, FinalNext(lim, f, p[n]))
  {
    PreparedSpan(o[n], p[n]);
  }

  /** DMA segment k is empty and will stay so; the ones before it cover the first m segments. */
  predicate EndedAt(o: seq<Segment>, p: seq<Segment>, iova: nat, m: nat, k: nat, f: Final)
    requires 0 < m < |o| == |p|
  {
    && 0 < k < |f.out| && f.out[k].len == 0 && (forall j :: 0 < j < k ==> f.out[j].len > 0)
    && f.out[k - 1].addr + f.out[k - 1].len == iova + Start(p, m - 1) + PageOffset(o[m - 1]) + o[m - 1].length
    && (|f.out| == k + 1 ==> f.curLen == 0)
  }

  lemma {:induction false} Ends(lim: Limits, o: seq<Segment>, p: seq<Segment>, iova: nat, n: nat, f: Final)
    requires lim.boundary > 0 && |o| == |p| && n < |o| && PreparedOne(o[n], p[n]) && Finalised(o, p, iova, n, f)
    requires Going(o, p, n, f) && EndsScan(lim.boundary, o, p, iova, n)
    ensures EndedAt(o, p, iova, n, |f.out|, FinalNext(lim, f, p[n]))
  {
  }

  lemma {:induction false} StaysEnded(
    lim: Limits, o: seq<Segment>, p: seq<Segment>, iova: nat, m: nat, k: nat, f: Final, s: Segment)
    requires lim.boundary > 0 && 0 < m < |o| == |p| && EndedAt(o, p, iova, m, k, f)
    ensures EndedAt(o, p, iova, m, k, FinalNext(lim, f, s))
  {
  }

  lemma {:induction false} RunFinalised(lim: Limits, o: seq<Segment>, p: seq<Segment>, iova: nat, n: nat)
    requires lim.boundary > 0 && Prepared(o, p) && n <= |o|
    ensures Finalised(o, p, iova, n, FinalRun(lim, p, iova, n))
    decreases n
  {
    if n > 0 {
      RunFinalised(lim, o, p, iova, n - 1);
      FinalNextKeeps(lim, o, p, iova, n - 1, FinalRun(lim, p, iova, n - 1));
    }
  }

  lemma {:induction false} RunGoes(lim: Limits, o: seq<Segment>, p: seq<Segment>, iova: nat, n: nat)
    requires lim.boundary > 0 && Prepared(o, p) && n <= |o| && NoneEnds(lim.boundary, o, p, iova, n)
    ensures Going(o, p, n, FinalRun(lim, p, iova, n))
    decreases n
  {
    if n > 0 {
      RunGoes(lim, o, p, iova, n - 1);
      RunFinalised(lim, o, p, iova, n - 1);
      GoesOn(lim, o, p, iova, n - 1, FinalRun(lim, p, iova, n - 1));
    }
  }

  lemma {:induction false} RunEnds(lim: Limits, o: seq<Segment>, p: seq<Segment>, iova: nat, m: nat, n: nat)
    requires lim.boundary > 0 && Prepared(o, p) && m < n <= |o|
    requires EndsScan(lim.boundary, o, p, iova, m) && NoneEnds(lim.boundary, o, p, iova, m)
    ensures EndedAt(o, p, iova, m, |FinalRun(lim, p, iova, m).out|, FinalRun(lim, p, iova, n))
    decreases n
  {
    if n == m + 1 {
      RunGoes(lim, o, p, iova, m);
      RunFinalised(lim, o, p, iova, m);
      Ends(lim, o, p, iova, m, FinalRun(lim, p, iova, m));
    } else {
      RunEnds(lim, o, p, iova, m, n - 1);
      StaysEnded(lim, o, p, iova, m, |FinalRun(lim, p, iova, m).out|, FinalRun(lim, p, iova, n - 1), p[n - 1]);
    }
  }

  /** The first segment from m on at which the scan stops, or the end of the list. */
  function FirstEnd(boundary: nat, o: seq<Segment>, p: seq<Segment>, iova: nat, m: nat): (r: nat)
    requires boundary > 0 && m <= |o|
    ensures m <= r <= |o| && (r < |o| ==> r > 0 ==> EndsScan(boundary, o, p, iova, r))
    ensures forall i :: m <= i < r ==> !EndsScan(boundary, o, p, iova, i)
    decreases |o| - m
  {
    if m == |o| || EndsScan(boundary, o, p, iova, m) then m else FirstEnd(boundary, o, p, iova, m + 1)
  }

  /** The length that fast_smmu_unmap_sg works out. */
  function ExtentLength(boundary: nat, o: seq<Segment>, p: seq<Segment>, iova: nat): nat
    requires boundary > 0 && 0 < |o| == |p|
  {
    var m := FirstEnd(boundary, o, p, iova, 1);
    Start(p, m - 1) + PageSpan(o[m - 1])
  }

  /** From segment m on, nothing takes IOVA space, not even padding. */
  predicate NothingFrom(o: seq<Segment>, p: seq<Segment>, m: nat)
    requires 0 < m <= |o| == |p|
  {
    p[m - 1].length == PageSpan(o[m - 1]) && forall j :: m <= j < |p| ==> p[j].length == 0
  }

  lemma {:induction false} SpaceFrom(o: seq<Segment>, p: seq<Segment>, m: nat, n: nat)
    requires Prepared(o, p) && 0 < m <= n <= |o|
    ensures Start(p, m - 1) + PageSpan(o[m - 1]) <= Start(p, n)
    ensures Start(p, m - 1) + PageSpan(o[m - 1]) == Start(p, n) <==>
            p[m - 1].length == PageSpan(o[m - 1]) && forall j :: m <= j < n ==> p[j].length == 0
    decreases n
  {
    assert PreparedOne(o[m - 1], p[m - 1]);
    if m < n {
      SpaceFrom(o, p, m, n - 1);
    }
  }

  /** Every segment at which the scan would stop is followed by nothing that takes IOVA space. */
  predicate ScanCovers(boundary: nat, o: seq<Segment>, p: seq<Segment>, iova: nat)
    requires boundary > 0
  {
    forall m :: 0 < m < |o| && EndsScan(boundary, o, p, iova, m) ==> NothingFrom(o, p, m)
  }

  /** The extent is the whole allocation exactly under this condition on the list, its layout and the
      address it was given. */
  lemma {:induction false} ExtentCovers(boundary: nat, o: seq<Segment>, p: seq<Segment>, iova: nat)
    requires boundary > 0 && Prepared(o, p) && |o| > 0
    ensures ExtentLength(boundary, o, p, iova) <= TotalLength(p)
    ensures ExtentLength(boundary, o, p, iova) == TotalLength(p) <==> ScanCovers(boundary, o, p, iova)
  {
    var r := FirstEnd(boundary, o, p, iova, 1);
    SpaceFrom(o, p, r, |o|);
    if NothingFrom(o, p, r) {
      forall m | 0 < m < |o| && EndsScan(boundary, o, p, iova, m)
        ensures NothingFrom(o, p, m)
      {
        assert r <= m;
        assert PreparedOne(o[m - 1], p[m - 1]);
      }
    } else {
      assert r < |o|;
    }
  }

  /** A list of two pages with an empty segment between them, which does not start a page. */
  function PageEmptyPage(phys: nat): seq<Segment> {
    [Segment(phys, 0, SZ_4K, 0, 0), Segment(phys, 8, 0, 0, 0), Segment(phys, 0, SZ_4K, 0, 0)]
  }

  /** Whatever the boundary and wherever the list is put, the scan stops at the empty segment: of the
      allocation only the first page is unmapped. */
  lemma {:induction false} EmptySegmentEndsScan(boundary: nat, iova: nat, phys: nat)
    requires GoodBoundary(boundary)
    ensures var o, p := PageEmptyPage(phys), PreparedList(boundary, PageEmptyPage(phys), 3);
            && ExtentLength(boundary, o, p, iova) == SZ_4K && TotalLength(p) >= 3 * SZ_4K
            && !ScanCovers(boundary, o, p, iova)
  {
    var o, p := PageEmptyPage(phys), PreparedList(boundary, PageEmptyPage(phys), 3);
    PreparedListKeeps(boundary, o, 3);
    assert o[..3] == o;
    assert PageSpan(o[0]) == PageSpan(o[1]) == PageSpan(o[2]) == SZ_4K;
    assert PreparedOne(o[0], p[0]) && PreparedOne(o[1], p[1]) && PreparedOne(o[2], p[2]);
    assert EndsScan(boundary, o, p, iova, 1) && FirstEnd(boundary, o, p, iova, 1) == 1;
    assert Start(p, 0) == 0 && Start(p, 1) == p[0].length && Start(p, 2) == p[0].length + p[1].length;
    ExtentCovers(boundary, o, p, iova);
  }

  /** The DMA segments of that list as the device gets them, if no boundary is near. */
  lemma {:induction false} EmptySegmentBetween(lim: Limits, iova: nat, phys: nat)
    requires lim.boundary >= 3 * SZ_4K
    ensures FinalRun(lim, PreparedList(lim.boundary, PageEmptyPage(phys), 3), iova, 3).out ==
            [Dma(iova, SZ_4K), Dma(iova + SZ_4K + 8, 0), Dma(iova + 2 * SZ_4K, SZ_4K)]
  {
    var o := PageEmptyPage(phys);
    var page, empty := Align(o[0]), Align(o[1]);
    assert page == Segment(phys, 0, SZ_4K, 0, SZ_4K) && empty == Segment(phys, 0, SZ_4K, 8, 0);
    assert PreparedList(lim.boundary, o, 0) == [];
    assert PreparedList(lim.boundary, o, 1) == [page];
    assert TotalLength([page]) == SZ_4K by {
      assert Start([page], 0) == 0;
    }
    assert PreparedList(lim.boundary, o, 2) == [page, empty];
    assert TotalLength([page, empty]) == 2 * SZ_4K by {
      assert Start([page, empty], 0) == 0 && Start([page, empty], 1) == SZ_4K;
    }
    var p := PreparedList(lim.boundary, o, 3);
    assert p == [page, empty, page];
    assert FinalRun(lim, p, iova, 0) == Final([], 0, iova);
    assert FinalRun(lim, p, iova, 1) == Final([Dma(iova, SZ_4K)], SZ_4K, iova + SZ_4K);
    assert FinalRun(lim, p, iova, 2) == Final([Dma(iova, SZ_4K), Dma(iova + SZ_4K + 8, 0)], 0, iova + 2 * SZ_4K);
  }

  /** The scan of fast_smmu_unmap_sg for the last DMA segment. */
  method LastDma(a: array<Segment>, ghost o: seq<Segment>, ghost p: seq<Segment>, ghost out: seq<Dma>)
    returns (last: nat)
    requires a.Length > 0 && 0 < |out| <= a.Length && ListIs(a[..], o, p, out, a.Length)
    ensures last == LastScanned(out, 0) < |out|
  {
    last := 0;
    ghost var list := a[..];
    while last + 1 < a.Length
      invariant last < |out| && last + 1 <= a.Length && LastScanned(out, last) == LastScanned(out, 0)
    {
      DmaLengthAt(list, o, p, out, last + 1);
      assert list[last + 1] == a[last + 1];
      if a[last + 1].dmaLen == 0 {
        break;
      }
      last := last + 1;
    }
  }

  /** The DMA segments start at `first`, and those that the scan sees end at `end`. */
  predicate Scanned(out: seq<Dma>, first: nat, end: nat) {
    var last := LastScanned(out, 0);
    last < |out| && out[0].addr == first && out[last].addr + out[last].len == end
  }

  /** The end of segment i in the IOVA space. */
  function EndOfNth(o: seq<Segment>, p: seq<Segment>, i: nat): nat
    requires i < |o| && i <= |p|
  {
    Start(p, i) + (PageOffset(o[i]) + o[i].length)
  }

  lemma {:induction false} EndedScanned(o: seq<Segment>, p: seq<Segment>, iova: nat, m: nat, k: nat, f: Final)
    requires 0 < m < |o| == |p| && EndedAt(o, p, iova, m, k, f) && Finalised(o, p, iova, |o|, f)
    ensures Scanned(f.out, iova + PageOffset(o[0]), iova + EndOfNth(o, p, m - 1))
  {
    ScanStopsAt(f.out, 0, k);
  }

  lemma {:induction false} GoingScanned(o: seq<Segment>, p: seq<Segment>, iova: nat, f: Final)
    requires 0 < |o| == |p| && Going(o, p, |o|, f) && Finalised(o, p, iova, |o|, f)
    ensures Scanned(f.out, iova + PageOffset(o[0]), iova + EndOfNth(o, p, |o| - 1))
  {
    ScanStopsAt(f.out, 0, |f.out|);
  }

  lemma {:induction false} EndedAddress(lim: Limits, o: seq<Segment>, p: seq<Segment>, iova: nat, m: nat)
    requires lim.boundary > 0 && Prepared(o, p) && m < |o|
    requires EndsScan(lim.boundary, o, p, iova, m) && NoneEnds(lim.boundary, o, p, iova, m)
    ensures Scanned(FinalRun(lim, p, iova, |p|).out, iova + PageOffset(o[0]), iova + EndOfNth(o, p, m - 1))
  {
    RunFinalised(lim, o, p, iova, |p|);
    RunEnds(lim, o, p, iova, m, |p|);
    EndedScanned(o, p, iova, m, |FinalRun(lim, p, iova, m).out|, FinalRun(lim, p, iova, |p|));
  }

  lemma {:induction false} GoingAddress(lim: Limits, o: seq<Segment>, p: seq<Segment>, iova: nat)
    requires lim.boundary > 0 && Prepared(o, p) && |o| > 0 && NoneEnds(lim.boundary, o, p, iova, |o|)
    ensures Scanned(FinalRun(lim, p, iova, |p|).out, iova + PageOffset(o[0]), iova + EndOfNth(o, p, |o| - 1))
  {
    RunFinalised(lim, o, p, iova, |p|);
    RunGoes(lim, o, p, iova, |p|);
    GoingScanned(o, p, iova, FinalRun(lim, p, iova, |p|));
  }

  /** Where the scan ends: with the segment before the first one that stops it. */
  lemma {:induction false} ScanEndAddress(lim: Limits, o: seq<Segment>, p: seq<Segment>, iova: nat, m: nat)
    requires lim.boundary > 0 && Prepared(o, p) && |o| > 0 && m == FirstEnd(lim.boundary, o, p, iova, 1)
    ensures Scanned(FinalRun(lim, p, iova, |p|).out, iova + PageOffset(o[0]), iova + EndOfNth(o, p, m - 1))
  {
    if m < |o| {
      EndedAddress(lim, o, p, iova, m);
    } else {
      GoingAddress(lim, o, p, iova);
    }
  }

  lemma {:induction false} RoundExtent(iova: nat, at: nat, x: nat)
    requires at % SZ_4K == 0
    ensures RoundUp(iova + (at + x) - iova) == at + RoundUp(x)
  {
    RoundUpAdd(at, x);
  }

  /** So the extent has the length given above. */
  lemma {:induction false} ExtentRounds(o: seq<Segment>, p: seq<Segment>, iova: nat, i: nat, end: nat)
    requires i < |o| == |p| && Start(p, i) % SZ_4K == 0 && end == iova + EndOfNth(o, p, i)
    ensures iova <= end && RoundUp(end - iova) == Start(p, i) + PageSpan(o[i])
  {
    RoundExtent(iova, Start(p, i), PageOffset(o[i]) + o[i].length);
  }

  lemma {:induction false} ScannedExtent(lim: Limits, o: seq<Segment>, p: seq<Segment>, iova: nat)
    returns (first: nat, end: nat)
    requires lim.boundary > 0 && Prepared(o, p) && |o| > 0 && Paged(p) && iova % SZ_4K == 0
    ensures Scanned(FinalRun(lim, p, iova, |p|).out, first, end) && first - first % SZ_4K == iova <= end
    ensures RoundUp(end - iova) == ExtentLength(lim.boundary, o, p, iova)
  {
    var m := FirstEnd(lim.boundary, o, p, iova, 1);
    first, end := iova + PageOffset(o[0]), iova + EndOfNth(o, p, m - 1);
    ScanEndAddress(lim, o, p, iova, m);
    StartPaged(p, m - 1);
    ExtentRounds(o, p, iova, m - 1, end);
    PageOfFirst(iova, o[0], first);
  }

  /** A list that has been mapped at iova, as the caller got it back. */
  ghost predicate MappedList(lim: Limits, a: seq<Segment>, o: seq<Segment>, p: seq<Segment>, iova: nat)
    requires lim.boundary > 0
  {
    && 0 < |o| && Prepared(o, p) && Paged(p) && iova % SZ_4K == 0 && |FinalRun(lim, p, iova, |p|).out| <= |o|
    && ListIs(a, o, p, FinalRun(lim, p, iova, |p|).out, |a|)
  }

  /** The extent that fast_smmu_unmap_sg works out from the DMA fields alone. */
  method Extent(a: array<Segment>, ghost lim: Limits, ghost o: seq<Segment>, ghost p: seq<Segment>, ghost iova: nat)
    returns (start: nat, len: nat)
    requires lim.boundary > 0 && MappedList(lim, a[..], o, p, iova)
    ensures start - start % SZ_4K == iova && len == ExtentLength(lim.boundary, o, p, iova)
  {
    ghost var first, end := ScannedExtent(lim, o, p, iova);
    start, len := DmaExtent(a, o, p, FinalRun(lim, p, iova, |p|).out, first, end);
  }

  /** From the page of the first DMA segment to the end of the last one that the scan sees. */
  method DmaExtent(
    a: array<Segment>, ghost o: seq<Segment>, ghost p: seq<Segment>, ghost out: seq<Dma>, ghost first: nat,
    ghost end: nat)
    returns (start: nat, len: nat)
    requires a.Length > 0 && 0 < |out| <= a.Length && ListIs(a[..], o, p, out, a.Length)
    requires Scanned(out, first, end) && first - first % SZ_4K <= end
    ensures start == first && len == RoundUp(end - (first - first % SZ_4K))
  {
    var last := LastDma(a, o, p, out);
    DmaLengthAt(a[..], o, p, out, 0);
    DmaLengthAt(a[..], o, p, out, last);
    start := a[0].dmaAddr;
    var offset := start % SZ_4K;
    len := RoundUp(a[last].dmaAddr + a[last].dmaLen - (start - offset));
  }

  /** fast_smmu_unmap_sg up to freeing the IOVA space: exactly the extent is unmapped, which is the
      whole allocation if and only if the scan covers it; what is left stays mapped. */
  method UnmapSg(
    t: FastTable, a: array<Segment>, ghost lim: Limits, ghost o: seq<Segment>, ghost p: seq<Segment>,
    ghost iova: nat)
    returns (start: nat, len: nat)
    requires t.Valid() && lim.boundary > 0 && MappedList(lim, a[..], o, p, iova)
    requires t.base <= iova && iova + TotalLength(p) <= t.end
    modifies t
    ensures t.Valid() && start - start % SZ_4K == iova && len == ExtentLength(lim.boundary, o, p, iova)
    ensures len % SZ_4K == 0
    ensures len <= TotalLength(p) && (len == TotalLength(p) <==> ScanCovers(lim.boundary, o, p, iova))
    ensures Untouched(old(ViewOf(t)), ViewOf(t), iova, iova + len)
    ensures forall x :: iova <= x < iova + len ==> Translate(ViewOf(t), x) == Fault
  {
    start, len := Extent(a, lim, o, p, iova);
    ExtentPaged(lim.boundary, o, p, iova);
    ExtentCovers(lim.boundary, o, p, iova);
    ClearRegion(t, start, iova, len);
  }

  lemma {:induction false} ExtentPaged(boundary: nat, o: seq<Segment>, p: seq<Segment>, iova: nat)
    requires boundary > 0 && 0 < |o| == |p| && Paged(p)
    ensures ExtentLength(boundary, o, p, iova) % SZ_4K == 0
  {
    var m := FirstEnd(boundary, o, p, iova, 1);
    StartPaged(p, m - 1);
    SumPaged(Start(p, m - 1), PageSpan(o[m - 1]));
  }

  /** av8l_fast_unmap_public at an address within the first page. */
  method ClearRegion(t: FastTable, start: nat, ghost iova: nat, len: nat)
    requires t.Valid() && t.base <= iova && start - start % SZ_4K == iova && len % SZ_4K == 0 && iova + len <= t.end
    modifies t
    ensures t.Valid()
    ensures Untouched(old(ViewOf(t)), ViewOf(t), iova, iova + len)
    ensures forall x :: iova <= x < iova + len ==> Translate(ViewOf(t), x) == Fault
  {
    var _ := t.Unmap(start, len);
    forall x | t.base <= x < t.end
      ensures t.EntryAt(x) == if iova <= x < iova + len then Other else old(t.EntryAt(x))
    {
      PageOf(iova, len, x);
    }
  }
}
