/** Scatterlists for DMA (drivers/iommu/qcom-dma-iommu-generic.c): the list is aligned to pages in
    place, keeping what it overwrites in the DMA fields, and restored afterwards. */
module ScatterList {
  import opened Arith

  const PAGE := 4096
  /** DMA_MAPPING_ERROR, all ones */
  const NO_ADDRESS := 0xFFFF_FFFF_FFFF_FFFF

  /** A segment of memory, by the physical address of its page and an offset, and the two fields
      that carry the DMA mapping. */
  datatype Segment = Segment(phys: nat, offset: nat, length: nat, dmaAddr: nat, dmaLen: nat)

  function RoundUp(x: nat): nat {
    (x + PAGE - 1) / PAGE * PAGE
  }

  /** iova_offset */
  function PageOffset(s: Segment): nat {
    s.offset % PAGE
  }

  /** The whole pages that a segment touches. */
  function PageSpan(s: Segment): nat {
    RoundUp(s.length + PageOffset(s))
  }

  /** Where the k-th segment starts if the segments are laid end to end. */
  function Start(list: seq<Segment>, k: nat): nat
    requires k <= |list|
  {
    if k == 0 then 0 else Start(list, k - 1) + list[k - 1].length
  }

  function TotalLength(list: seq<Segment>): nat {
    Start(list, |list|)
  }

  lemma {:induction false} StartPrefix(p: seq<Segment>, q: seq<Segment>, k: nat)
    requires k <= |p| && k <= |q| && forall i :: 0 <= i < k ==> p[i].length == q[i].length
    ensures Start(p, k) == Start(q, k)
    decreases k
  {
    if k > 0 {
      StartPrefix(p, q, k - 1);
    }
  }

  lemma {:induction false} StartMono(p: seq<Segment>, i: nat, k: nat)
    requires i <= k <= |p|
    ensures Start(p, i) <= Start(p, k)
    decreases k
  {
    if i < k {
      StartMono(p, i, k - 1);
    }
  }

  /** x & mask, where mask + 1 is the boundary. */
  function Beyond(x: nat, boundary: nat): (r: nat)
    requires boundary > 0
    ensures r < boundary
  {
    if x < boundary then x else Beyond(x - boundary, boundary)
  }

  lemma {:induction false} BeyondIsMod(x: nat, boundary: nat)
    requires boundary > 0
    ensures Beyond(x, boundary) == x % boundary
    decreases x
  {
    if x < boundary {
      DivMod(x, boundary, 0, x);
    } else {
      BeyondIsMod(x - boundary, boundary);
      AddMultiple(x - boundary, boundary, 1);
    }
  }

  /** The distance from an IOVA length to the next segment boundary: (mask - len + 1) & mask. */
  function PadTo(boundary: nat, len: nat): nat
    requires boundary > 0
  {
    if Beyond(len, boundary) == 0 then 0 else boundary - Beyond(len, boundary)
  }

  /** A segment boundary is a multiple of the page size or divides it. */
  predicate GoodBoundary(boundary: nat) {
    boundary > 0 && (boundary % PAGE == 0 || PAGE % boundary == 0)
  }

  // ----- prepare ------------------------------------------------------------------------------------

  /** How a prepared segment keeps the original: aligned to pages, possibly padded, with the
      offset within the page and the length saved. */
  predicate PreparedOne(o: Segment, p: Segment) {
    && p.phys == o.phys && p.offset == o.offset - PageOffset(o)
    && p.dmaAddr == PageOffset(o) && p.dmaLen == o.length
    && PageSpan(o) <= p.length && p.length % PAGE == 0
  }

  predicate Prepared(o: seq<Segment>, p: seq<Segment>) {
    && |p| == |o|
    && (forall i :: 0 <= i < |o| ==> PreparedOne(o[i], p[i]))
    && (|o| > 0 ==> p[|p| - 1].length == PageSpan(o[|o| - 1]))
  }

  /** A segment that starts `at` bytes into the allocation crosses no boundary it could avoid. */
  predicate WithinBoundary(boundary: nat, at: nat, span: nat)
    requires boundary > 0
  {
    span <= boundary ==> Beyond(at, boundary) + span <= boundary
  }

  predicate StaysWithin(boundary: nat, o: seq<Segment>, p: seq<Segment>, k: nat)
    requires boundary > 0
  {
    k < |o| && k < |p| && WithinBoundary(boundary, Start(p, k), PageSpan(o[k]))
  }

  predicate NoneCrosses(boundary: nat, o: seq<Segment>, p: seq<Segment>)
    requires boundary > 0
  {
    forall k :: 0 <= k < |p| ==> StaysWithin(boundary, o, p, k)
  }

  lemma RemainderInPages(m: nat, k: nat, len: nat, boundary: nat)
    requires k > 0 && len == m * PAGE && boundary == k * PAGE
    ensures len % boundary == m % k * PAGE
  {
    SplitMod(m, k);
    assert m / k * boundary == m / k * k * PAGE;
    assert m % k * PAGE + PAGE <= boundary;
    DivMod(len, boundary, m / k, m % k * PAGE);
  }

  lemma RemainderOfPages(m: nat, k: nat, len: nat, boundary: nat)
    requires boundary > 0 && PAGE == k * boundary && len == m * PAGE
    ensures len % boundary == 0
  {
    assert len == m * k * boundary by {
      assert m * (k * boundary) == m * k * boundary;
    }
    ModMultiple(m * k, boundary);
  }

  lemma PadIsWholePages(boundary: nat, len: nat)
    requires GoodBoundary(boundary) && len % PAGE == 0
    ensures PadTo(boundary, len) % PAGE == 0
    ensures len == 0 ==> PadTo(boundary, len) == 0
  {
    BeyondIsMod(len, boundary);
    if boundary % PAGE == 0 {
      RemainderInPages(len / PAGE, boundary / PAGE, len, boundary);
    } else {
      SplitMod(PAGE, boundary);
      RemainderOfPages(len / PAGE, PAGE / boundary, len, boundary);
    }
  }

  /** Padding to the boundary, when the segment would not fit before it, keeps the segment inside. */
  lemma PadAvoidsCrossing(boundary: nat, len: nat, span: nat)
    requires boundary > 0
    ensures WithinBoundary(boundary, len + PadTo(boundary, len), span)
    ensures PadTo(boundary, len) == 0 || PadTo(boundary, len) >= span ==> WithinBoundary(boundary, len, span)
  {
    var pad := PadTo(boundary, len);
    BeyondIsMod(len, boundary);
    BeyondIsMod(len + pad, boundary);
    SplitMod(len, boundary);
    if pad != 0 {
      assert len + pad == (len / boundary + 1) * boundary;
      ModMultiple(len / boundary + 1, boundary);
    }
  }

  lemma {:induction false} StartWholePages(list: seq<Segment>, k: nat)
    requires k <= |list| && forall i :: 0 <= i < |list| ==> list[i].length % PAGE == 0
    ensures Start(list, k) % PAGE == 0
    decreases k
  {
    if k > 0 {
      StartWholePages(list, k - 1);
    }
  }

  /** The list with its last segment made longer. */
  function Lengthen(p: seq<Segment>, pad: nat): seq<Segment>
    requires p != []
  {
    p[|p| - 1 := p[|p| - 1].(length := p[|p| - 1].length + pad)]
  }

  lemma Lengthened(p: seq<Segment>, pad: nat)
    requires p != []
    ensures TotalLength(Lengthen(p, pad)) == TotalLength(p) + pad
  {
    StartPrefix(Lengthen(p, pad), p, |p| - 1);
  }

  /** What the loop has done after some segments: their prepared form and the length so far. */
  predicate PreparedSoFar(boundary: nat, o: seq<Segment>, p: seq<Segment>, total: nat)
    requires boundary > 0
  {
    && |p| <= |o| && Prepared(o[..|p|], p)
    && total == TotalLength(p)
    && NoneCrosses(boundary, o, p)
  }

  function Align(s: Segment): Segment {
    Segment(s.phys, s.offset - PageOffset(s), PageSpan(s), PageOffset(s), s.length)
  }

  /** Whether a segment crosses a boundary depends on the lengths before it only. */
  lemma CrossingPrefix(boundary: nat, o: seq<Segment>, p: seq<Segment>, q: seq<Segment>, n: nat)
    requires boundary > 0 && NoneCrosses(boundary, o, p) && n <= |p| && n <= |q|
    requires forall i :: 0 <= i < n - 1 ==> p[i].length == q[i].length
    ensures forall k :: 0 <= k < n ==> StaysWithin(boundary, o, q, k)
  {
    forall k | 0 <= k < n
      ensures StaysWithin(boundary, o, q, k)
    {
      assert StaysWithin(boundary, o, p, k);
      StartPrefix(p, q, k);
    }
  }

  /** The previous segment is padded if the next one would not fit before the boundary. */
  lemma PadPrevious(boundary: nat, o: seq<Segment>, p: seq<Segment>, total: nat, pad: nat)
    requires GoodBoundary(boundary) && PreparedSoFar(boundary, o, p, total)
    requires pad == PadTo(boundary, total) && pad != 0
    ensures p != []
    ensures TotalLength(Lengthen(p, pad)) == total + pad
    ensures NoneCrosses(boundary, o, Lengthen(p, pad))
    ensures forall i :: 0 <= i < |p| ==> PreparedOne(o[i], Lengthen(p, pad)[i])
  {
    StartWholePages(p, |p|);
    PadIsWholePages(boundary, total);
    assert p != [];
    Lengthened(p, pad);
    CrossingPrefix(boundary, o, p, Lengthen(p, pad), |p|);
  }

  lemma AppendAligned(boundary: nat, o: seq<Segment>, p: seq<Segment>, total: nat)
    requires boundary > 0 && |p| < |o| && total == TotalLength(p) && NoneCrosses(boundary, o, p)
    requires forall i :: 0 <= i < |p| ==> PreparedOne(o[i], p[i])
    requires WithinBoundary(boundary, total, PageSpan(o[|p|]))
    ensures PreparedSoFar(boundary, o, p + [Align(o[|p|])], total + PageSpan(o[|p|]))
  {
    var p' := p + [Align(o[|p|])];
    StartPrefix(p', p, |p|);
    CrossingPrefix(boundary, o, p, p', |p|);
    assert StaysWithin(boundary, o, p', |p|);
  }

  /** Pads and spans are whole pages, so `pad < span - 1` is `pad < span`. */
  lemma PadRange(boundary: nat, o: seq<Segment>, p: seq<Segment>, total: nat, span: nat)
    requires GoodBoundary(boundary) && PreparedSoFar(boundary, o, p, total) && span % PAGE == 0
    ensures PadTo(boundary, total) < span ==> PadTo(boundary, total) < span - 1
  {
    StartWholePages(p, |p|);
    PadIsWholePages(boundary, total);
  }

  /** `pad_len && pad_len < s_length - 1`, where for an empty span the difference wraps round to the
      largest unsigned number. */
  predicate NeedsPad(pad: nat, span: nat) {
    pad != 0 && (span == 0 || pad < span - 1)
  }

  /** The padding that the loop inserts before a segment. */
  function PadBefore(boundary: nat, total: nat, s: Segment): nat
    requires boundary > 0
  {
    var pad := PadTo(boundary, total);
    if NeedsPad(pad, PageSpan(s)) then pad else 0
  }

  /** The list after one more round of the loop. */
  function PrepareNext(boundary: nat, p: seq<Segment>, total: nat, s: Segment): seq<Segment>
    requires boundary > 0
  {
    var pad := PadBefore(boundary, total, s);
    (if pad != 0 && p != [] then Lengthen(p, pad) else p) + [Align(s)]
  }

  /** The first n segments as qcom_iommu_dma_prepare_map_sg leaves them. */
  function PreparedList(boundary: nat, o: seq<Segment>, n: nat): (r: seq<Segment>)
    requires boundary > 0 && n <= |o|
    ensures |r| == n
  {
    if n == 0 then []
    else
      var p := PreparedList(boundary, o, n - 1);
      PrepareNext(boundary, p, TotalLength(p), o[n - 1])
  }

  lemma PrepareNextKeeps(boundary: nat, o: seq<Segment>, p: seq<Segment>, total: nat)
    requires GoodBoundary(boundary) && PreparedSoFar(boundary, o, p, total) && |p| < |o|
    ensures var s := o[|p|];
            var pad := PadBefore(boundary, total, s);
            && (pad != 0 ==> p != [])
            && PreparedSoFar(boundary, o, PrepareNext(boundary, p, total, s), total + pad + PageSpan(s))
  {
    var s := o[|p|];
    var pad := PadBefore(boundary, total, s);
    PadAvoidsCrossing(boundary, total, PageSpan(s));
    PadRange(boundary, o, p, total, PageSpan(s));
    if pad != 0 {
      PadPrevious(boundary, o, p, total, pad);
      AppendAligned(boundary, o, Lengthen(p, pad), total + pad);
    } else {
      AppendAligned(boundary, o, p, total);
    }
  }

  /** qcom_iommu_dma_prepare_map_sg: returns the IOVA length to allocate. */
  method PrepareMapSg(a: array<Segment>, boundary: nat) returns (iovaLen: nat)
    requires GoodBoundary(boundary)
    modifies a
    ensures a[..] == PreparedList(boundary, old(a[..]), a.Length) && iovaLen == TotalLength(a[..])
    ensures Prepared(old(a[..]), a[..]) && NoneCrosses(boundary, old(a[..]), a[..])
  {
    ghost var o := a[..];
    iovaLen := 0;
    var i := 0;
    while i < a.Length
      invariant 0 <= i <= a.Length
      invariant a[i..] == o[i..]
      invariant PreparedSoFar(boundary, o, a[..i], iovaLen) && a[..i] == PreparedList(boundary, o, i)
    {
      ghost var p, total := a[..i], iovaLen;
      PrepareNextKeeps(boundary, o, p, total);
      iovaLen := PrepareOne(a, boundary, i, iovaLen);
      assert a[i + 1..] == o[i + 1..];
      i := i + 1;
    }
    assert a[..] == a[..a.Length] && o == o[..a.Length];
  }

  /** One round of the loop: save and align segment i, and pad segment i - 1 if need be. */
  method PrepareOne(a: array<Segment>, boundary: nat, i: nat, iovaLen: nat) returns (total: nat)
    requires i < a.Length && boundary > 0
    requires PadBefore(boundary, iovaLen, a[i]) != 0 ==> i > 0
    modifies a
    ensures a[..i + 1] == PrepareNext(boundary, old(a[..i]), iovaLen, old(a[i]))
    ensures a[i + 1..] == old(a[i + 1..])
    ensures total == iovaLen + PadBefore(boundary, iovaLen, old(a[i])) + PageSpan(old(a[i]))
  {
    var off, len := a[i].offset % PAGE, a[i].length;
    var span, pad := RoundUp(len + off), PadTo(boundary, iovaLen);
    total := iovaLen;
    a[i] := Segment(a[i].phys, a[i].offset - off, span, off, len);
    if NeedsPad(pad, span) {
      a[i - 1] := a[i - 1].(length := a[i - 1].length + pad);
      total := total + pad;
    }
    total := total + span;
  }

  // ----- invalidate -------------------------------------------------------------------------------------

  /** The list as the caller gave it, with the DMA fields marked as not mapped. */
  function Unmapped(o: Segment): Segment {
    o.(dmaAddr := NO_ADDRESS, dmaLen := 0)
  }

  function InvalidateOne(p: Segment): Segment {
    Segment(p.phys,
            if p.dmaAddr != NO_ADDRESS then p.offset + p.dmaAddr else p.offset,
            if p.dmaLen != 0 then p.dmaLen else p.length,
            NO_ADDRESS, 0)
  }

  /** qcom_iommu_dma_invalidate_sg */
  method InvalidateSg(a: array<Segment>)
    modifies a
    ensures Invalidated(old(a[..]), a[..])
  {
    var i := 0;
    while i < a.Length
      invariant 0 <= i <= a.Length
      invariant forall k :: 0 <= k < a.Length ==> a[k] == if k < i then InvalidateOne(old(a[k])) else old(a[k])
    {
      a[i] := InvalidateOne(a[i]);
      i := i + 1;
    }
  }

  /** Invalidating a prepared segment restores it exactly if it was not empty, or if preparing
      made nothing of it: an empty segment at a page boundary without padding. */
  lemma InvalidateRestores(o: Segment, p: Segment)
    requires PreparedOne(o, p)
    ensures InvalidateOne(p) == Unmapped(o) <==> o.length > 0 || p.length == 0
  {
  }

  predicate Restored(o: seq<Segment>, q: seq<Segment>) {
    |q| == |o| && forall i :: 0 <= i < |o| ==> q[i] == Unmapped(o[i])
  }

  predicate Invalidated(p: seq<Segment>, q: seq<Segment>) {
    |q| == |p| && forall i :: 0 <= i < |p| ==> q[i] == InvalidateOne(p[i])
  }

  /** Each segment is not empty, or takes no IOVA space. */
  predicate NoEmptySpace(o: seq<Segment>, p: seq<Segment>) {
    |p| == |o| && forall i :: 0 <= i < |o| ==> o[i].length > 0 || p[i].length == 0
  }

  lemma {:induction false} InvalidateRestoresList(o: seq<Segment>, p: seq<Segment>, q: seq<Segment>)
    requires |p| == |o| && (forall i :: 0 <= i < |o| ==> PreparedOne(o[i], p[i])) && Invalidated(p, q)
    ensures Restored(o, q) <==> NoEmptySpace(o, p)
  {
    forall i | 0 <= i < |o|
      ensures q[i] == Unmapped(o[i]) <==> o[i].length > 0 || p[i].length == 0
    {
      InvalidateRestores(o[i], p[i]);
    }
  }

  /** So prepare followed by invalidate restores a whole list exactly if each of its segments is not
      empty or takes no IOVA space. */
  lemma {:induction false} PrepareInvalidateRestores(boundary: nat, o: seq<Segment>, q: seq<Segment>)
    requires GoodBoundary(boundary) && Invalidated(PreparedList(boundary, o, |o|), q)
    ensures Restored(o, q) <==> NoEmptySpace(o, PreparedList(boundary, o, |o|))
  {
    PreparedListKeeps(boundary, o, |o|);
    assert o[..|o|] == o;
    InvalidateRestoresList(o, PreparedList(boundary, o, |o|), q);
  }

  lemma {:induction false} PreparedListKeeps(boundary: nat, o: seq<Segment>, n: nat)
    requires GoodBoundary(boundary) && n <= |o|
    ensures PreparedSoFar(boundary, o, PreparedList(boundary, o, n), TotalLength(PreparedList(boundary, o, n)))
  {
    if n > 0 {
      PreparedListKeeps(boundary, o, n - 1);
      var p := PreparedList(boundary, o, n - 1);
      PrepareNextKeeps(boundary, o, p, TotalLength(p));
    }
  }

  /** An empty segment that does not start at a page boundary comes back a page long. */
  lemma EmptySegmentNotRestored(phys: nat)
    ensures InvalidateOne(Align(Segment(phys, 8, 0, 0, 0))).length == PAGE
  {
  }

  // ----- finalise ---------------------------------------------------------------------------------------

  /** The addresses of `len` bytes from `addr`. */
  function Bytes(addr: nat, len: nat): seq<nat> {
    seq(len, j requires 0 <= j < len => addr + j)
  }

  /** A DMA segment given to the device. */
  datatype Dma = Dma(addr: nat, len: nat)

  /** The device addresses that DMA segments describe, in order. */
  function DmaBytes(out: seq<Dma>): seq<nat> {
    if out == [] then []
    else DmaBytes(out[..|out| - 1]) + Bytes(out[|out| - 1].addr, out[|out| - 1].len)
  }

  /** Where the bytes of the first n original segments were put: segment i starts at its place in
      the allocation, at its offset within the page. */
  function PlacedBytes(o: seq<Segment>, p: seq<Segment>, iova: nat, n: nat): seq<nat>
    requires n <= |o| && n <= |p|
  {
    if n == 0 then []
    else
      PlacedBytes(o, p, iova, n - 1) + Bytes(iova + Start(p, n - 1) + PageOffset(o[n - 1]), o[n - 1].length)
  }

  lemma BytesJoin(addr: nat, l: nat, k: nat)
    ensures Bytes(addr, l) + Bytes(addr + l, k) == Bytes(addr, l + k)
  {
  }

  lemma DmaBytesSnoc(out: seq<Dma>, d: Dma)
    ensures DmaBytes(out + [d]) == DmaBytes(out) + Bytes(d.addr, d.len)
  {
    assert (out + [d])[..|out|] == out;
  }

  /** Lengthening the last DMA segment appends the bytes that follow it. */
  lemma DmaBytesGrow(out: seq<Dma>, k: nat)
    requires out != []
    ensures var last := out[|out| - 1];
            DmaBytes(out[|out| - 1 := Dma(last.addr, last.len + k)]) ==
            DmaBytes(out) + Bytes(last.addr + last.len, k)
  {
    var init, last := out[..|out| - 1], out[|out| - 1];
    var out' := out[|out| - 1 := Dma(last.addr, last.len + k)];
    assert out'[..|out| - 1] == init;
    BytesJoin(last.addr, last.len, k);
  }

  /** The loop state: the DMA segments so far, the length of the last one while it may still grow
      (0 once it may not), and the IOVA of the next segment. */
  datatype Final = Final(out: seq<Dma>, curLen: nat, addr: nat)

  /** The device's limits: no DMA segment may be longer, or be joined across a boundary. */
  datatype Limits = Limits(maxLen: nat, boundary: nat)

  /** The check that a joined segment is not too long, in 32-bit arithmetic. */
  predicate HasRoom(lim: Limits, curLen: nat, len: nat) {
    (lim.maxLen - curLen) % 0x1_0000_0000 >= len
  }

  /** Segment s may be joined to the last DMA segment. */
  predicate Joins(lim: Limits, f: Final, s: Segment)
    requires lim.boundary > 0
  {
    && f.curLen != 0 && f.out != []
    && s.dmaAddr == 0
    && Beyond(f.addr, lim.boundary) != 0
    && HasRoom(lim, f.curLen, s.dmaLen)
  }

  /** One round of the loop for a prepared segment. */
  function FinalNext(lim: Limits, f: Final, s: Segment): Final
    requires lim.boundary > 0
  {
    var joins := Joins(lim, f, s);
    var len := if joins then f.curLen + s.dmaLen else s.dmaLen;
    Final(if joins then f.out[|f.out| - 1 := Dma(f.out[|f.out| - 1].addr, len)]
          else f.out + [Dma(f.addr + s.dmaAddr, len)],
          if s.dmaLen + s.dmaAddr < s.length then 0 else len,
          f.addr + s.length)
  }

  /** The loop over the first n prepared segments. */
  function FinalRun(lim: Limits, p: seq<Segment>, iova: nat, n: nat): Final
    requires lim.boundary > 0 && n <= |p|
  {
    if n == 0 then Final([], 0, iova) else FinalNext(lim, FinalRun(lim, p, iova, n - 1), p[n - 1])
  }

  ghost predicate Finalised(o: seq<Segment>, p: seq<Segment>, iova: nat, n: nat, f: Final) {
    && n <= |o| && n <= |p| && |f.out| <= n
    && f.addr == iova + Start(p, n)
    && DmaBytes(f.out) == PlacedBytes(o, p, iova, n)
    && (f.curLen > 0 ==>
          f.out != [] && f.out[|f.out| - 1].len == f.curLen && f.out[|f.out| - 1].addr + f.curLen == f.addr)
    && (n > 0 ==>
          && f.out != [] && f.out[0].addr == iova + PageOffset(o[0])
          && EndOf(f.out) == iova + Start(p, n - 1) + PageOffset(o[n - 1]) + o[n - 1].length)
  }

  function EndOf(out: seq<Dma>): nat
    requires out != []
  {
    out[|out| - 1].addr + out[|out| - 1].len
  }

  lemma PlacedStep(o: seq<Segment>, p: seq<Segment>, iova: nat, n: nat, addr: nat)
    requires n < |o| && n < |p| && PreparedOne(o[n], p[n]) && addr == iova + Start(p, n)
    ensures PlacedBytes(o, p, iova, n + 1) == PlacedBytes(o, p, iova, n) + Bytes(addr + p[n].dmaAddr, p[n].dmaLen)
    ensures iova + Start(p, n + 1) == addr + p[n].length
  {
  }

  /** The saved offset and length fit into the prepared length. */
  lemma PreparedSpan(o: Segment, p: Segment)
    requires PreparedOne(o, p)
    ensures p.dmaLen + p.dmaAddr <= p.length
  {
  }

  lemma JoinKeeps(lim: Limits, o: seq<Segment>, p: seq<Segment>, iova: nat, n: nat, f: Final)
    requires lim.boundary > 0 && Finalised(o, p, iova, n, f)
    requires n < |o| && n < |p| && PreparedOne(o[n], p[n]) && Joins(lim, f, p[n])
    ensures Finalised(o, p, iova, n + 1, FinalNext(lim, f, p[n]))
  {
    PlacedStep(o, p, iova, n, f.addr);
    DmaBytesGrow(f.out, p[n].dmaLen);
    PreparedSpan(o[n], p[n]);
  }

  lemma NewKeeps(lim: Limits, o: seq<Segment>, p: seq<Segment>, iova: nat, n: nat, f: Final)
    requires lim.boundary > 0 && Finalised(o, p, iova, n, f)
    requires n < |o| && n < |p| && PreparedOne(o[n], p[n]) && !Joins(lim, f, p[n])
    ensures Finalised(o, p, iova, n + 1, FinalNext(lim, f, p[n]))
  {
    PlacedStep(o, p, iova, n, f.addr);
    DmaBytesSnoc(f.out, Dma(f.addr + p[n].dmaAddr, p[n].dmaLen));
    PreparedSpan(o[n], p[n]);
  }

  /** Each round puts the bytes of one more segment where they belong, and joins two pieces only if
      their addresses are adjacent. */
  lemma FinalNextKeeps(lim: Limits, o: seq<Segment>, p: seq<Segment>, iova: nat, n: nat, f: Final)
    requires lim.boundary > 0 && Finalised(o, p, iova, n, f)
    requires n < |o| && n < |p| && PreparedOne(o[n], p[n])
    ensures Finalised(o, p, iova, n + 1, FinalNext(lim, f, p[n]))
  {
    if Joins(lim, f, p[n]) {
      JoinKeeps(lim, o, p, iova, n, f);
    } else {
      NewKeeps(lim, o, p, iova, n, f);
    }
  }

  predicate NoneLonger(maxLen: nat, o: seq<Segment>) {
    forall i :: 0 <= i < |o| ==> o[i].length <= maxLen
  }

  predicate WithinLimit(maxLen: nat, f: Final) {
    f.curLen <= maxLen && forall k :: 0 <= k < |f.out| ==> f.out[k].len <= maxLen
  }

  /** If no segment is too long for the device, no DMA segment is. */
  lemma FinalNextWithinLimit(lim: Limits, f: Final, s: Segment)
    requires lim.boundary > 0 && WithinLimit(lim.maxLen, f) && s.dmaLen <= lim.maxLen
    ensures WithinLimit(lim.maxLen, FinalNext(lim, f, s))
  {
  }

  predicate NoneEmpty(o: seq<Segment>) {
    forall i :: 0 <= i < |o| ==> o[i].length > 0
  }

  predicate AllFilled(out: seq<Dma>) {
    forall k :: 0 <= k < |out| ==> out[k].len > 0
  }

  lemma FinalNextFilled(lim: Limits, f: Final, s: Segment)
    requires lim.boundary > 0 && AllFilled(f.out) && s.dmaLen > 0
    ensures AllFilled(FinalNext(lim, f, s).out)
  {
  }

  lemma {:induction false} BeyondAdd(x: nat, k: nat, boundary: nat)
    requires boundary > 0 && Beyond(x, boundary) + k <= boundary
    ensures Beyond(x + k, boundary) == if Beyond(x, boundary) + k < boundary then Beyond(x, boundary) + k else 0
    decreases x
  {
    if x >= boundary {
      BeyondAdd(x - boundary, k, boundary);
    }
  }

  lemma {:induction false} BeyondShift(base: nat, x: nat, boundary: nat)
    requires boundary > 0 && Beyond(base, boundary) == 0
    ensures Beyond(base + x, boundary) == Beyond(x, boundary)
    decreases base
  {
    if base >= boundary {
      BeyondShift(base - boundary, x, boundary);
    }
  }

  /** A DMA segment stays between two boundaries. */
  predicate Inside(boundary: nat, d: Dma)
    requires boundary > 0
  {
    Beyond(d.addr, boundary) + d.len <= boundary
  }

  predicate AllInside(boundary: nat, out: seq<Dma>)
    requires boundary > 0
  {
    forall k :: 0 <= k < |out| ==> Inside(boundary, out[k])
  }

  /** A piece that itself stays between two boundaries, joined only where no boundary lies,
      leaves the result between two boundaries. */
  lemma FinalNextInside(lim: Limits, f: Final, s: Segment)
    requires lim.boundary > 0 && AllInside(lim.boundary, f.out)
    requires f.curLen > 0 && f.out != [] ==> f.out[|f.out| - 1].len == f.curLen && EndOf(f.out) == f.addr
    requires s.dmaAddr + s.dmaLen <= s.length
    requires Beyond(f.addr, lim.boundary) + s.dmaAddr + s.dmaLen <= lim.boundary
    ensures AllInside(lim.boundary, FinalNext(lim, f, s).out)
  {
    if Joins(lim, f, s) {
      BeyondAdd(f.out[|f.out| - 1].addr, f.curLen, lim.boundary);
    } else {
      BeyondAdd(f.addr, s.dmaAddr, lim.boundary);
    }
  }

  /** The allocation as a whole lies between two boundaries, or it starts at one and every segment
      could be kept between two. */
  predicate Avoidable(boundary: nat, o: seq<Segment>, p: seq<Segment>, iova: nat)
    requires boundary > 0
  {
    || Beyond(iova, boundary) + TotalLength(p) <= boundary
    || (Beyond(iova, boundary) == 0 && NoneCrosses(boundary, o, p) && NoneWider(boundary, o))
  }

  predicate NoneWider(boundary: nat, o: seq<Segment>) {
    forall i :: 0 <= i < |o| ==> PageSpan(o[i]) <= boundary
  }

  lemma PieceInside(lim: Limits, o: seq<Segment>, p: seq<Segment>, iova: nat, n: nat)
    requires lim.boundary > 0 && n < |o| && n < |p| && PreparedOne(o[n], p[n]) && Avoidable(lim.boundary, o, p, iova)
    ensures Beyond(iova + Start(p, n), lim.boundary) + p[n].dmaAddr + p[n].dmaLen <= lim.boundary
  {
    RoundUpCovers(o[n].length + PageOffset(o[n]));
    if Beyond(iova, lim.boundary) + TotalLength(p) <= lim.boundary {
      StartMono(p, n + 1, |p|);
      BeyondAdd(iova, Start(p, n), lim.boundary);
    } else {
      BeyondShift(iova, Start(p, n), lim.boundary);
      assert StaysWithin(lim.boundary, o, p, n);
    }
  }

  lemma RoundUpCovers(x: nat)
    ensures x <= RoundUp(x) < x + PAGE
  {
  }

  /** The list during the loop: original fields up to n, DMA segments up to their number. */
  function FinalSegment(o: seq<Segment>, p: seq<Segment>, out: seq<Dma>, n: nat, k: nat): Segment
    requires |o| == |p| && k < |o|
  {
    if k >= n then p[k]
    else if k < |out| then o[k].(dmaAddr := out[k].addr, dmaLen := out[k].len)
    else Unmapped(o[k])
  }

  predicate ListIs(a: seq<Segment>, o: seq<Segment>, p: seq<Segment>, out: seq<Dma>, n: nat) {
    |a| == |o| == |p| && forall k :: 0 <= k < |a| ==> a[k] == FinalSegment(o, p, out, n, k)
  }

  /** Restore segment i's own fields, once its saved fields have been read. */
  method Restore(a: array<Segment>, i: nat, ghost o: seq<Segment>, ghost p: seq<Segment>, ghost out: seq<Dma>)
    requires i < a.Length && |out| <= i && ListIs(a[..], o, p, out, i) && PreparedOne(o[i], p[i])
    modifies a
    ensures ListIs(a[..], o, p, out, i + 1)
  {
    assert a[i] == a[..][i] == p[i];
    a[i] := Segment(a[i].phys, a[i].offset + a[i].dmaAddr, a[i].dmaLen, NO_ADDRESS, 0);
    assert forall k :: 0 <= k < a.Length && k != i ==> a[k] == old(a[..])[k];
  }

  method SetDma(
    a: array<Segment>, cur: nat, d: Dma, ghost i: nat, ghost o: seq<Segment>, ghost p: seq<Segment>,
    ghost out: seq<Dma>)
    requires cur < a.Length && cur < i && cur <= |out| && ListIs(a[..], o, p, out, i)
    modifies a
    ensures ListIs(a[..], o, p, if cur == |out| then out + [d] else out[cur := d], i)
  {
    assert a[cur] == a[..][cur];
    a[cur] := a[cur].(dmaAddr := d.addr, dmaLen := d.len);
    assert forall k :: 0 <= k < a.Length && k != cur ==> a[k] == old(a[..])[k];
  }

  /** The loop's variables agree with its specification. */
  ghost predicate Tied(f: Final, count: nat, curAddr: nat, curLen: nat, addr: nat) {
    && f.curLen == curLen && f.addr == addr && count == |f.out|
    && (count > 0 ==> f.out[count - 1].addr == curAddr) && (curLen > 0 ==> count > 0)
  }

  /** One round of the loop in qcom_iommu_dma_finalise_sg: segment i is restored, then the DMA
      segment being built, which never comes after it, is filled in. */
  method FinaliseOne(a: array<Segment>, i: nat, count: nat, curAddr: nat, curLen: nat, addr: nat, lim: Limits,
                     ghost o: seq<Segment>, ghost p: seq<Segment>, ghost f: Final)
    returns (count': nat, curAddr': nat, curLen': nat, addr': nat)
    requires lim.boundary > 0 && i < a.Length && |f.out| <= i && (i > 0 ==> f.out != [])
    requires ListIs(a[..], o, p, f.out, i) && PreparedOne(o[i], p[i])
    requires Tied(f, count, curAddr, curLen, addr)
    modifies a
    ensures Tied(FinalNext(lim, f, p[i]), count', curAddr', curLen', addr')
    ensures ListIs(a[..], o, p, FinalNext(lim, f, p[i]).out, i + 1)
  {
    assert a[i] == a[..][i] == p[i];
    var off, len, span := a[i].dmaAddr, a[i].dmaLen, a[i].length;
    Restore(a, i, o, p, f.out);
    if curLen != 0 && off == 0 && Beyond(addr, lim.boundary) != 0 && HasRoom(lim, curLen, len) {
      count', curAddr', curLen' := count, curAddr, curLen + len;
    } else {
      count', curAddr', curLen' := count + 1, addr + off, len;
    }
    SetDma(a, count' - 1, Dma(curAddr', curLen'), i + 1, o, p, f.out);
    addr' := addr + span;
    if len + off < span {
      curLen' := 0;
    }
  }

  /** What the finished list promises, beyond holding the bytes: DMA segments within the device's
      limits if they can be, and none empty unless the caller's list has empty segments. */
  ghost predicate Promised(lim: Limits, o: seq<Segment>, p: seq<Segment>, iova: nat, f: Final)
    requires lim.boundary > 0
  {
    && (NoneLonger(lim.maxLen, o) ==> WithinLimit(lim.maxLen, f))
    && (Avoidable(lim.boundary, o, p, iova) ==> AllInside(lim.boundary, f.out))
    && (NoneEmpty(o) ==> AllFilled(f.out))
  }

  lemma FinalNextPromised(lim: Limits, o: seq<Segment>, p: seq<Segment>, iova: nat, n: nat, f: Final)
    requires lim.boundary > 0 && Finalised(o, p, iova, n, f) && Promised(lim, o, p, iova, f)
    requires n < |o| && n < |p| && PreparedOne(o[n], p[n])
    ensures Promised(lim, o, p, iova, FinalNext(lim, f, p[n]))
  {
    if NoneLonger(lim.maxLen, o) {
      FinalNextWithinLimit(lim, f, p[n]);
    }
    if NoneEmpty(o) {
      FinalNextFilled(lim, f, p[n]);
    }
    if Avoidable(lim.boundary, o, p, iova) {
      PieceInside(lim, o, p, iova, n);
      PreparedSpan(o[n], p[n]);
      FinalNextInside(lim, f, p[n]);
    }
  }

  /** qcom_iommu_dma_finalise_sg: the DMA segments hold the list's bytes in order, each where the
      allocation puts it; every segment gets its own fields back. */
  method FinaliseSg(a: array<Segment>, ghost o: seq<Segment>, iova: nat, lim: Limits)
    returns (count: nat, ghost f: Final)
    requires lim.boundary > 0 && Prepared(o, a[..])
    modifies a
    ensures count == |f.out| <= a.Length && f == FinalRun(lim, old(a[..]), iova, a.Length)
    ensures ListIs(a[..], o, old(a[..]), f.out, a.Length)
    ensures Finalised(o, old(a[..]), iova, a.Length, f)
    ensures Promised(lim, o, old(a[..]), iova, f)
  {
    ghost var p := a[..];
    f := Final([], 0, iova);
    var addr, curLen, i, curAddr := iova, 0, 0, 0;
    count := 0;
    while i < a.Length
      invariant 0 <= i <= a.Length
      invariant Tied(f, count, curAddr, curLen, addr) && f == FinalRun(lim, p, iova, i)
      invariant Finalised(o, p, iova, i, f) && Promised(lim, o, p, iova, f)
      invariant ListIs(a[..], o, p, f.out, i)
    {
      assert PreparedOne(o[i], p[i]);
      FinalNextKeeps(lim, o, p, iova, i, f);
      FinalNextPromised(lim, o, p, iova, i, f);
      count, curAddr, curLen, addr := FinaliseOne(a, i, count, curAddr, curLen, addr, lim, o, p, f);
      f := FinalNext(lim, f, p[i]);
      i := i + 1;
    }
  }
}
