/** The objects that start in one page, as find_alloced_obj and zs_page_migrate in mm/zsmalloc.c
    visit them. */
module ZsScan {
  import opened ZsMemory
  import opened ZsZspage
  import opened ZsInit
  import opened ZsPool
  import opened ZsMoves

  lemma {:induction false} StartAdd(c: Class, i: nat, k: nat)
    ensures Start(c, i + k) == Start(c, i) + Start(c, k)
    decreases k
  {
    if k > 0 {
      StartAdd(c, i, k - 1);
    }
  }

  /** Object i starts in page j, at offset off. */
  predicate StartsAt(c: Class, i: nat, j: nat, off: nat) {
    Good(c) && j < c.p && Start(c, i) == PageStart(c, j) + off
  }

  /** An object that starts in the zspage is whole, or the partial one at the end. */
  lemma {:induction false} WholeOrTail(c: Class, i: nat, j: nat, off: nat)
    requires StartsAt(c, i, j, off) && off < c.pw
    ensures Start(c, i) < Words(c) && PageOf(c, Start(c, i)) == j && InPage(c, Start(c, i)) == off
    ensures i <= c.n && (i == c.n ==> HasTail(c))
  {
    PageStartMono(c, j + 1, c.p);
    PageJoin(c, j, off);
    if i > c.n {
      StartMono(c, c.n + 1, i);
    }
  }

  /** The word at the start of an object, read in its page. */
  lemma {:induction false} WordAt(c: Class, s: Pool, z: nat, i: nat, j: nat, off: nat)
    requires InChain(c, s, z) && StartsAt(c, i, j, off) && off < c.pw
    ensures Start(c, i) < Words(c) && s.mem[s.zs[z].frames[j]][off] == Flat(c, s, z)[Start(c, i)]
  {
    PageInView(c, s.mem, s.zs[z].frames, j, off);
  }

  /** No object below m is allocated. */
  ghost predicate NoneBelow(c: Class, flat: seq<Word>, m: nat) {
    forall i :: 0 <= i < m && i < c.n ==> ClearAt(c, flat, i)
  }

  predicate ClearAt(c: Class, flat: seq<Word>, i: nat) {
    Start(c, i) < |flat| && flat[Start(c, i)] % 2 == 0
  }

  /** If no object at all is allocated, none is in use. */
  lemma {:induction false} NoneMeansEmpty(c: Class, flat: seq<Word>, z: Zspage, fl: seq<nat>)
    requires Numbered(c) && !Huge(c) && Consistent(c, flat, z, fl) && NoneBelow(c, flat, c.n)
    ensures z.inuse == 0
  {
    forall i | i in UpTo(c.n)
      ensures i in Elements(fl, |fl|)
    {
      assert ClearAt(c, flat, i) && TaggedAt(c, flat, fl, i);
      ElementOf(fl, |fl|, i);
    }
    SubsetSize(UpTo(c.n), Elements(fl, |fl|));
  }

  lemma {:induction false} ElementOf(fl: seq<nat>, n: nat, x: nat)
    requires n <= |fl| && x in fl[..n] && forall k, m :: 0 <= k < m < |fl| ==> fl[k] != fl[m]
    ensures x in Elements(fl, n)
    decreases n
  {
    if n > 0 && fl[n - 1] != x {
      assert fl[..n] == fl[..n - 1] + [fl[n - 1]];
      ElementOf(fl, n - 1, x);
    }
  }

  /** Past the last object of page j comes the first one of the next page. */
  lemma {:induction false} EndOfPage(c: Class, i: nat, j: nat, off: nat)
    requires StartsAt(c, i, j, off) && off >= c.pw && (i == 0 || Start(c, i - 1) < PageStart(c, j + 1))
    ensures FirstObject(c, j + 1) == i
    ensures j + 1 == c.p ==> i >= c.n
  {
    FirstObjectIs(c, j + 1, i);
    if i < c.n {
      StartMono(c, i + 1, c.n);
    }
  }

  // ----- handles of one page --------------------------------------------------------------------------

  /** Handles of objects below m that start in the old frame lead to the new one. */
  function RedirectedBelow(handles: map<nat, Obj>, from: nat, to: nat, m: nat): (r: map<nat, Obj>)
    ensures r.Keys == handles.Keys
    ensures forall h :: h in handles ==>
              r[h] == if handles[h].frame == from && handles[h].idx < m then Obj(to, handles[h].idx) else handles[h]
  {
    map h | h in handles ::
      if handles[h].frame == from && handles[h].idx < m then Obj(to, handles[h].idx) else handles[h]
  }

  /** A handle that leads to a frame of zspage z leads to an object of z that starts there. */
  lemma {:induction false} HandleInPage(c: Class, s: Pool, z: nat, j: nat, h: nat)
    requires Inv(c, s) && z in s.zs && j < c.p && h in s.handles && ZspageFits(c, s, z)
    requires s.handles[h].frame == s.zs[z].frames[j]
    ensures HandleFits(c, s, h) && ZspageOf(s, h) == z && PageOf(c, Start(c, s.handles[h].idx)) == j
  {
    assert HandleFits(c, s, h) && HomeFits(s, z, j);
    FrameHome(c, s, z, s.handles[h].idx);
  }

  lemma {:induction false} NoneBefore(c: Class, s: Pool, z: nat, j: nat, to: nat)
    requires Inv(c, s) && z in s.zs && j < c.p && ZspageFits(c, s, z)
    ensures RedirectedBelow(s.handles, s.zs[z].frames[j], to, FirstObject(c, j)) == s.handles
  {
    forall h | h in s.handles && s.handles[h].frame == s.zs[z].frames[j]
      ensures s.handles[h].idx >= FirstObject(c, j)
    {
      HandleInPage(c, s, z, j, h);
      var i := s.handles[h].idx;
      PageSplit(c, Start(c, i));
      if i < FirstObject(c, j) {
        StartMono(c, i, FirstObject(c, j) - 1);
      }
    }
  }

  lemma {:induction false} AllAfter(c: Class, s: Pool, z: nat, j: nat, to: nat, m: nat)
    requires Inv(c, s) && z in s.zs && j < c.p && ZspageFits(c, s, z) && Start(c, m) >= PageStart(c, j + 1)
    ensures RedirectedBelow(s.handles, s.zs[z].frames[j], to, m) == Redirected(s.handles, s.zs[z].frames[j], to)
  {
    forall h | h in s.handles && s.handles[h].frame == s.zs[z].frames[j]
      ensures s.handles[h].idx < m
    {
      HandleInPage(c, s, z, j, h);
      var i := s.handles[h].idx;
      PageSplit(c, Start(c, i));
      if i >= m {
        StartMono(c, m, i);
      }
    }
  }

  /** The handle of the object at i is the only one that has to be redirected there. */
  lemma {:induction false} RedirectOne(c: Class, s: Pool, z: nat, j: nat, to: nat, i: nat)
    requires Inv(c, s) && z in s.zs && j < c.p && ZspageFits(c, s, z) && i < c.n && PageOf(c, Start(c, i)) == j
    ensures var from := s.zs[z].frames[j];
            var w := Header(c, Flat(c, s, z), s.zs[z], i);
            if w % 2 == 1 then
              && w - 1 in s.handles && s.handles[w - 1].idx == i
              && RedirectedBelow(s.handles, from, to, i + 1) ==
                   RedirectedBelow(s.handles, from, to, i)[w - 1 := Obj(to, i)]
            else RedirectedBelow(s.handles, from, to, i + 1) == RedirectedBelow(s.handles, from, to, i)
  {
    var from := s.zs[z].frames[j];
    var w := Header(c, Flat(c, s, z), s.zs[z], i);
    assert Owned(c, s, z, i);
    forall h | h in s.handles && s.handles[h].frame == from && s.handles[h].idx == i
      ensures w == h + 1
    {
      HandleInPage(c, s, z, j, h);
    }
    forall h | h in s.handles
      ensures RedirectedBelow(s.handles, from, to, i + 1)[h] ==
              if w == h + 1 && w % 2 == 1 then Obj(to, i) else RedirectedBelow(s.handles, from, to, i)[h]
    {
      if w == h + 1 {
        assert HandleFits(c, s, h);
      }
    }
  }

  /** No handle leads to the partial object at the end. */
  lemma {:induction false} RedirectTail(c: Class, s: Pool, from: nat, to: nat, i: nat)
    requires Inv(c, s) && i >= c.n
    ensures RedirectedBelow(s.handles, from, to, i + 1) == RedirectedBelow(s.handles, from, to, i)
  {
    forall h | h in s.handles
      ensures s.handles[h].idx < c.n
    {
      assert HandleFits(c, s, h);
    }
  }

  // ----- looking for allocated objects ------------------------------------------------------------------

  /** The words of page j. */
  ghost predicate IsPage(c: Class, page: seq<Word>, flat: seq<Word>, j: nat) {
    |page| == c.pw && |flat| == Words(c) && forall r :: 0 <= r < c.pw ==> SameWord(page, 0, flat, PageStart(c, j), r)
  }

  lemma {:induction false} PageIs(c: Class, mem: Memory, frames: seq<nat>, j: nat)
    requires Good(c) && Chain(c, mem, frames) && j < c.p
    ensures IsPage(c, mem[frames[j]], View(c, mem, frames), j)
  {
    var page, flat, at := mem[frames[j]], View(c, mem, frames), PageStart(c, j);
    forall r | 0 <= r < c.pw
      ensures SameWord(page, 0, flat, at, r)
    {
      PageInView(c, mem, frames, j, r);
    }
  }

  /** Where the scan stands: before the m-th object, which starts at offset off if that is still in
      the page. */
  ghost predicate ScanAt(c: Class, flat: seq<Word>, j: nat, m: nat, off: nat) {
    && StartsAt(c, m, j, off) && (m == 0 || Start(c, m - 1) < PageStart(c, j + 1)) && NoneBelow(c, flat, m)
  }

  lemma {:induction false} ScanNext(c: Class, page: seq<Word>, flat: seq<Word>, j: nat, m: nat, off: nat)
    requires IsPage(c, page, flat, j) && TailClear(c, flat) && ScanAt(c, flat, j, m, off) && off < c.pw
    ensures page[off] % 2 == 0 ==> ScanAt(c, flat, j, m + 1, off + c.sz)
    ensures page[off] % 2 == 1 ==>
              m < c.n && Start(c, m) < PageStart(c, j + 1) && Start(c, m) < |flat| && flat[Start(c, m)] == page[off]
  {
    WholeOrTail(c, m, j, off);
    assert SameWord(page, 0, flat, PageStart(c, j), off);
  }

  /** find_alloced_obj: the next allocated object in page j, from the k-th one that starts there on. */
  method FindAlloced(c: Class, page: seq<Word>, ghost flat: seq<Word>, j: nat, k: nat)
    returns (found: bool, h: nat, k': nat)
    requires Good(c) && j < c.p && IsPage(c, page, flat, j) && TailClear(c, flat)
    requires ScanAt(c, flat, j, FirstObject(c, j) + k, FirstOffset(c, j) + Start(c, k))
    ensures k <= k' && (found ==> Hit(c, flat, j, FirstObject(c, j) + k', h))
    ensures !found ==> Missed(c, flat, j) && FirstObject(c, j + 1) == FirstObject(c, j) + k'
  {
    var off := FirstOffset(c, j) + Start(c, k);
    found, h, k' := ScanFrom(c, page, flat, j, FirstObject(c, j), k, off);
  }

  /** Object m is the first allocated one, and starts in page j. */
  ghost predicate Hit(c: Class, flat: seq<Word>, j: nat, m: nat, h: nat) {
    && m < c.n && Start(c, m) < PageStart(c, j + 1) && Start(c, m) < |flat| && flat[Start(c, m)] == h + 1 && h % 2 == 0
    && NoneBelow(c, flat, m)
  }

  /** No object that starts in page j or before is allocated. */
  ghost predicate Missed(c: Class, flat: seq<Word>, j: nat)
    requires Good(c)
  {
    NoneBelow(c, flat, FirstObject(c, j + 1)) && (j + 1 == c.p ==> FirstObject(c, j + 1) >= c.n)
  }

  /** The loop of find_alloced_obj. */
  method ScanFrom(c: Class, page: seq<Word>, ghost flat: seq<Word>, ghost j: nat, ghost first: nat, k: nat, start: nat)
    returns (found: bool, h: nat, k': nat)
    requires Good(c) && j < c.p && IsPage(c, page, flat, j) && TailClear(c, flat)
    requires ScanAt(c, flat, j, first + k, start)
    ensures k <= k' && (found ==> Hit(c, flat, j, first + k', h))
    ensures !found ==> Missed(c, flat, j) && FirstObject(c, j + 1) == first + k'
  {
    var off := start;
    found, h, k' := false, 0, k;
    while off < c.pw
      invariant k <= k' && ScanAt(c, flat, j, first + k', off)
      decreases c.pw - off
    {
      ScanNext(c, page, flat, j, first + k', off);
      if page[off] % 2 == 1 {
        return true, page[off] - 1, k';
      }
      off := off + c.sz;
      k' := k' + 1;
    }
    EndOfPage(c, first + k', j, off);
  }

  // ----- emptying a zspage into another ------------------------------------------------------------------

  /** Objects have moved from src to dst, and nothing else has happened. */
  ghost predicate Migrated(c: Class, s: Pool, s': Pool, src: nat, dst: nat) {
    && AllSame(c, s, s') && s'.home == s.home && s'.zs.Keys == s.zs.Keys && src in s.zs && dst in s.zs
    && (forall z :: z in s.zs && z != src && z != dst ==> s'.zs[z] == s.zs[z])
    && s'.zs[src].inuse + s'.zs[dst].inuse == s.zs[src].inuse + s.zs[dst].inuse
    && s'.zs[dst].inuse <= c.n
  }

  lemma {:induction false} AllSameTrans(c: Class, s: Pool, s1: Pool, s2: Pool)
    requires AllSame(c, s, s1) && AllSame(c, s1, s2)
    ensures AllSame(c, s, s2)
  {
    forall h | h in s.handles
      ensures HandleFits(c, s, h) && HandleFits(c, s2, h) && PayloadOf(c, s2, h) == PayloadOf(c, s, h)
    {
      assert HandleFits(c, s1, h) && HandleFits(c, s2, h);
    }
  }

  lemma {:induction false} MigratedNext(c: Class, s: Pool, s1: Pool, s2: Pool, h: nat, src: nat, dst: nat)
    requires src != dst && Migrated(c, s, s1, src, dst) && MoveStep(c, s1, s2, h, dst) && ZspageOf(s1, h) == src
    requires AllSame(c, s1, s2)
    ensures Migrated(c, s, s2, src, dst)
  {
    AllSameTrans(c, s, s1, s2);
  }

  /** How far the scan has come in zspage z: page j, the k-th object that starts there. */
  ghost predicate Scanning(c: Class, s: Pool, z: nat, j: nat, k: nat) {
    && j < c.p && InChain(c, s, z)
    && ScanAt(c, Flat(c, s, z), j, FirstObject(c, j) + k, FirstOffset(c, j) + Start(c, k))
  }

  /** After the first allocated object has moved away, one object fewer is left to look at. */
  lemma {:induction false} ScanMoved(c: Class, flat: seq<Word>, z: Zspage, fl: seq<nat>, j: nat, k: nat)
    requires Numbered(c) && !Huge(c) && Consistent(c, flat, z, fl) && z.inuse > 0 && j < c.p
    requires FirstObject(c, j) + k < c.n
    requires NoneBelow(c, flat, FirstObject(c, j) + k) && Start(c, FirstObject(c, j) + k) < PageStart(c, j + 1)
    ensures ScanAt(c, FreeFlat(c, flat, z, FirstObject(c, j) + k), j, FirstObject(c, j) + (k + 1),
              FirstOffset(c, j) + Start(c, k + 1))
  {
    ClearedNext(c, flat, z, fl, FirstObject(c, j) + k);
    StartAdd(c, FirstObject(c, j), k + 1);
  }

  /** What a move does to the source. */
  lemma {:induction false} MoveSource(c: Class, s: Pool, s': Pool, h: nat, dst: nat)
    requires MoveStep(c, s, s', h, dst)
    ensures var src := ZspageOf(s, h);
            && InChain(c, s, src) && InChain(c, s', src) && !Huge(c) && s.zs[src].inuse > 0 && s.handles[h].idx < c.n
            && Flat(c, s', src) == FreeFlat(c, Flat(c, s, src), s.zs[src], s.handles[h].idx)
  {
  }

  lemma {:induction false} ClearedNext(c: Class, flat: seq<Word>, z: Zspage, fl: seq<nat>, m: nat)
    requires Numbered(c) && !Huge(c) && Consistent(c, flat, z, fl) && z.inuse > 0 && m < c.n && NoneBelow(c, flat, m)
    ensures NoneBelow(c, FreeFlat(c, flat, z, m), m + 1)
  {
    var flat' := FreeFlat(c, flat, z, m);
    LinkIsEven(c, flat, z, fl);
    forall i | 0 <= i < m + 1 && i < c.n
      ensures ClearAt(c, flat', i)
    {
      ObjectFits(c, i);
      FreeElsewhere(c, flat, z, m, i);
      if i < m {
        assert ClearAt(c, flat, i);
      }
    }
  }

  /** The handle in the header of an allocated object is the handle of that object. */
  lemma {:induction false} OwnerOf(c: Class, s: Pool, z: nat, i: nat, h: nat)
    requires Inv(c, s) && z in s.zs && InChain(c, s, z) && !Huge(c) && i < c.n && Start(c, i) < Words(c)
    requires Flat(c, s, z)[Start(c, i)] == h + 1 && h % 2 == 0
    ensures HandleFits(c, s, h) && ZspageOf(s, h) == z && s.handles[h].idx == i
  {
    assert Owned(c, s, z, i) && ZspageFits(c, s, z);
    assert HandleFits(c, s, h);
    FrameHome(c, s, z, i);
  }

  /** The k-th object that starts in page j of zspage z is allocated to handle h, and none before. */
  ghost predicate FoundAt(c: Class, s: Pool, z: nat, j: nat, k: nat, h: nat) {
    InChain(c, s, z) && Hit(c, Flat(c, s, z), j, FirstObject(c, j) + k, h)
  }

  lemma {:induction false} FoundHandle(c: Class, s: Pool, z: nat, j: nat, k: nat, h: nat)
    requires Inv(c, s) && z in s.zs && !Huge(c) && FoundAt(c, s, z, j, k, h)
    ensures HandleFits(c, s, h) && ZspageOf(s, h) == z && s.handles[h].idx == FirstObject(c, j) + k
  {
    OwnerOf(c, s, z, FirstObject(c, j) + k, h);
  }

  lemma {:induction false} MovedScanning(c: Class, s: Pool, s': Pool, h: nat, src: nat, dst: nat, j: nat, k: nat)
    requires Inv(c, s) && MoveStep(c, s, s', h, dst) && src in s.zs && j < c.p && FoundAt(c, s, src, j, k, h)
    requires ZspageOf(s, h) == src && s.handles[h].idx == FirstObject(c, j) + k
    ensures Scanning(c, s', src, j, k + 1)
  {
    MoveSource(c, s, s', h, dst);
    assert ZspageFits(c, s, src);
    ScanMoved(c, Flat(c, s, src), s.zs[src], s.free[src], j, k);
  }

  lemma {:induction false} MovedScan(c: Class, s0: Pool, s: Pool, s': Pool, h: nat, src: nat, dst: nat, j: nat, k: nat)
    requires Inv(c, s) && MoveStep(c, s, s', h, dst) && src != dst && src in s.zs && j < c.p
    requires FoundAt(c, s, src, j, k, h)
    requires Migrated(c, s0, s, src, dst)
    ensures Inv(c, s') && Migrated(c, s0, s', src, dst) && Scanning(c, s', src, j, k + 1)
  {
    FoundHandle(c, s, src, j, k, h);
    MoveStepKeeps(c, s, s', h, dst);
    MigratedNext(c, s0, s, s', h, src, dst);
    MovedScanning(c, s, s', h, src, dst, j, k);
  }

  lemma {:induction false} ScanPage(c: Class, flat: seq<Word>, j: nat)
    requires Good(c) && j < c.p && NoneBelow(c, flat, FirstObject(c, j))
    ensures ScanAt(c, flat, j, FirstObject(c, j) + 0, FirstOffset(c, j) + Start(c, 0))
  {
    PageStartMono(c, j, j + 1);
  }

  // ----- the handles of one page, as they are redirected ---------------------------------------------------

  /** zs_page_migrate has dealt with the objects below m, which starts at offset off of page j. */
  ghost predicate Redirecting(c: Class, s: Pool, handles: map<nat, Obj>, z: nat, j: nat, to: nat, m: nat, off: nat) {
    && Inv(c, s) && ZspageFits(c, s, z) && z in s.zs && StartsAt(c, m, j, off)
    && handles == RedirectedBelow(s.handles, s.zs[z].frames[j], to, m)
  }

  lemma {:induction false} RedirectStart(c: Class, s: Pool, z: nat, j: nat, to: nat)
    requires Inv(c, s) && z in s.zs && j < c.p
    ensures Redirecting(c, s, s.handles, z, j, to, FirstObject(c, j), FirstOffset(c, j))
  {
    assert ZspageFits(c, s, z);
    NoneBefore(c, s, z, j, to);
  }

  /** What obj_allocated looks at: page->index for a huge zspage, the word itself otherwise. */
  function Tag(c: Class, z: Zspage, w: Word): Word {
    if Huge(c) then z.index else w
  }

  lemma {:induction false} RedirectTag(c: Class, s: Pool, z: nat, j: nat, m: nat, off: nat)
    requires Inv(c, s) && ZspageFits(c, s, z) && StartsAt(c, m, j, off) && off < c.pw
    ensures m < c.n ==>
              && PageOf(c, Start(c, m)) == j
              && Tag(c, s.zs[z], s.mem[s.zs[z].frames[j]][off]) == Header(c, Flat(c, s, z), s.zs[z], m)
    ensures m >= c.n && !Huge(c) ==> Tag(c, s.zs[z], s.mem[s.zs[z].frames[j]][off]) % 2 == 0
    ensures m >= c.n ==> m == c.n
  {
    WholeOrTail(c, m, j, off);
    WordAt(c, s, z, m, j, off);
  }

  /** One round of the loop: the handle of the object, if it is allocated, leads to the new frame. */
  lemma {:induction false} RedirectNext(
    c: Class, s: Pool, handles: map<nat, Obj>, z: nat, j: nat, to: nat, m: nat, off: nat)
    requires Redirecting(c, s, handles, z, j, to, m, off) && off < c.pw
    ensures var w := Tag(c, s.zs[z], s.mem[s.zs[z].frames[j]][off]);
            if w % 2 == 1 then
              && w - 1 in handles
              && Redirecting(c, s, handles[w - 1 := Obj(to, handles[w - 1].idx)], z, j, to, m + 1, off + c.sz)
            else Redirecting(c, s, handles, z, j, to, m + 1, off + c.sz)
  {
    RedirectTag(c, s, z, j, m, off);
    if m < c.n {
      RedirectOne(c, s, z, j, to, m);
    } else {
      RedirectTail(c, s, s.zs[z].frames[j], to, m);
      if Huge(c) {
        HugeAgain(c, s, handles, z, j, to);
      }
    }
  }

  /** The page of a huge zspage is looked at a second time if there is room; that changes nothing. */
  lemma {:induction false} HugeAgain(c: Class, s: Pool, handles: map<nat, Obj>, z: nat, j: nat, to: nat)
    requires Huge(c) && Inv(c, s) && ZspageFits(c, s, z) && z in s.zs && j < c.p
    requires handles == RedirectedBelow(s.handles, s.zs[z].frames[j], to, c.n)
    ensures var w := s.zs[z].index;
            w % 2 == 1 ==> w - 1 in handles && handles[w - 1 := Obj(to, handles[w - 1].idx)] == handles
  {
    var w := s.zs[z].index;
    if w % 2 == 1 {
      assert Owned(c, s, z, 0);
      ObjectFits(c, 0);
      PageBound(c, Start(c, 0));
    }
  }
}
