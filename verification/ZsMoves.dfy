/** Zspages that come and go, objects that move between zspages, and pages that move to other
    frames, in mm/zsmalloc.c: none of it changes what the handles lead to. */
module ZsMoves {
  import opened ZsMemory
  import opened ZsZspage
  import opened ZsInit
  import opened ZsPool

  /** Every handle leads to what it led to before. */
  ghost predicate AllSame(c: Class, s: Pool, s': Pool) {
    && s'.handles.Keys == s.handles.Keys
    && forall h {:trigger HandleFits(c, s', h)} ::
         h in s.handles ==> HandleFits(c, s, h) && HandleFits(c, s', h) && PayloadOf(c, s', h) == PayloadOf(c, s, h)
  }

  // ----- a new zspage -------------------------------------------------------------------------------

  predicate NewHome(s: Pool, s': Pool, z: nat, frames: seq<nat>) {
    && (forall f :: f in s.home ==> f in s'.home && s'.home[f] == s.home[f])
    && forall j :: 0 <= j < |frames| ==>
         frames[j] !in s.home && frames[j] in s'.home && s'.home[frames[j]] == Home(z, j)
  }

  /** alloc_zspage: pages that belong to no zspage are chained and given a free list. */
  ghost predicate AddStep(c: Class, s: Pool, s': Pool, z: nat, frames: seq<nat>) {
    && Good(c) && z !in s.zs && Chain(c, s.mem, frames) && Chain(c, s'.mem, frames) && OnlyIn(s.mem, s'.mem, frames)
    && s'.zs == s.zs[z := Zspage(frames, 0, 0, 0)] && s'.free == s.free[z := InSequence(c.n)]
    && s'.handles == s.handles && NewHome(s, s', z, frames)
    && Consistent(c, View(c, s'.mem, frames), Zspage(frames, 0, 0, 0), InSequence(c.n))
  }

  lemma {:induction false} AddOther(c: Class, s: Pool, s': Pool, z: nat, frames: seq<nat>, z': nat)
    requires Inv(c, s) && AddStep(c, s, s', z, frames) && z' in s.zs
    ensures ZspageFits(c, s, z') && ZspageFits(c, s', z') && s'.zs[z'] == s.zs[z'] && Flat(c, s', z') == Flat(c, s, z')
  {
    assert ZspageFits(c, s, z');
    forall i, j | 0 <= i < |frames| && 0 <= j < c.p
      ensures frames[i] != s.zs[z'].frames[j]
    {
      assert HomeFits(s, z', j);
    }
    ViewElsewhere(c, s.mem, s'.mem, frames, s.zs[z'].frames);
    forall j | 0 <= j < c.p
      ensures HomeFits(s', z', j)
    {
      assert HomeFits(s, z', j);
    }
  }

  lemma {:induction false} AddHandle(c: Class, s: Pool, s': Pool, z: nat, frames: seq<nat>, h: nat)
    requires Inv(c, s) && AddStep(c, s, s', z, frames) && h in s.handles
    ensures HandleFits(c, s, h) && HandleFits(c, s', h) && PayloadOf(c, s', h) == PayloadOf(c, s, h)
  {
    assert HandleFits(c, s, h);
    AddOther(c, s, s', z, frames, ZspageOf(s, h));
  }

  lemma {:induction false} AddOwned(c: Class, s: Pool, s': Pool, z: nat, frames: seq<nat>, z': nat, i: nat)
    requires Inv(c, s) && AddStep(c, s, s', z, frames) && z' in s'.zs && i < c.n
    ensures Owned(c, s', z', i)
  {
    if z' == z {
      if !Huge(c) {
        assert TaggedAt(c, Flat(c, s', z), InSequence(c.n), i) && InSequence(c.n)[i] == i;
      }
    } else {
      AddOther(c, s, s', z, frames, z');
      assert Owned(c, s, z', i);
    }
  }

  lemma {:induction false} AddStepKeeps(c: Class, s: Pool, s': Pool, z: nat, frames: seq<nat>)
    requires Inv(c, s) && AddStep(c, s, s', z, frames)
    ensures Inv(c, s') && AllSame(c, s, s')
  {
    forall z' | z' in s'.zs
      ensures ZspageFits(c, s', z')
    {
      if z' != z {
        AddOther(c, s, s', z, frames, z');
      }
    }
    forall h | h in s.handles
      ensures HandleFits(c, s, h) && HandleFits(c, s', h) && PayloadOf(c, s', h) == PayloadOf(c, s, h)
    {
      AddHandle(c, s, s', z, frames, h);
    }
    forall z', i | z' in s'.zs && 0 <= i < c.n
      ensures Owned(c, s', z', i)
    {
      AddOwned(c, s, s', z, frames, z', i);
    }
  }

  // ----- an empty zspage goes -------------------------------------------------------------------------

  /** __free_zspage */
  ghost predicate RemoveStep(c: Class, s: Pool, s': Pool, z: nat) {
    && z in s.zs && s.zs[z].inuse == 0
    && s'.zs == s.zs - {z} && s'.free == s.free - {z} && s'.mem == s.mem && s'.handles == s.handles
    && forall f :: f in s.home && s.home[f].z != z ==> f in s'.home && s'.home[f] == s.home[f]
  }

  /** In a zspage without objects in use, no object is marked as allocated. */
  lemma {:induction false} NoneAllocated(c: Class, flat: seq<Word>, z: Zspage, fl: seq<nat>, i: nat)
    requires Numbered(c) && Consistent(c, flat, z, fl) && z.inuse == 0 && i < c.n
    ensures Header(c, flat, z, i) % 2 == 0
  {
    if !Huge(c) && i !in fl {
      forall k | 0 <= k < |fl|
        ensures fl[k] < c.n
      {
        assert LinkedAt(c, flat, fl, k);
      }
      NotAllFree(c, fl, i);
    } else if !Huge(c) {
      assert TaggedAt(c, flat, fl, i);
    }
  }

  lemma {:induction false} RemoveOther(c: Class, s: Pool, s': Pool, z: nat, z': nat)
    requires Inv(c, s) && RemoveStep(c, s, s', z) && z' in s.zs && z' != z
    ensures ZspageFits(c, s, z') && ZspageFits(c, s', z') && s'.zs[z'] == s.zs[z'] && Flat(c, s', z') == Flat(c, s, z')
  {
    assert ZspageFits(c, s, z');
    forall j | 0 <= j < c.p
      ensures HomeFits(s', z', j)
    {
      assert HomeFits(s, z', j);
    }
  }

  lemma {:induction false} RemoveHandle(c: Class, s: Pool, s': Pool, z: nat, h: nat)
    requires Inv(c, s) && RemoveStep(c, s, s', z) && h in s.handles
    ensures HandleFits(c, s, h) && HandleFits(c, s', h) && PayloadOf(c, s', h) == PayloadOf(c, s, h)
  {
    assert HandleFits(c, s, h) && ZspageFits(c, s, z);
    NoneAllocated(c, Flat(c, s, z), s.zs[z], s.free[z], s.handles[h].idx);
    RemoveOther(c, s, s', z, ZspageOf(s, h));
  }

  lemma {:induction false} RemoveStepKeeps(c: Class, s: Pool, s': Pool, z: nat)
    requires Inv(c, s) && RemoveStep(c, s, s', z)
    ensures Inv(c, s') && AllSame(c, s, s')
  {
    forall z' | z' in s'.zs
      ensures ZspageFits(c, s', z')
    {
      RemoveOther(c, s, s', z, z');
    }
    forall h | h in s.handles
      ensures HandleFits(c, s, h) && HandleFits(c, s', h) && PayloadOf(c, s', h) == PayloadOf(c, s, h)
    {
      RemoveHandle(c, s, s', z, h);
    }
    forall z', i | z' in s'.zs && 0 <= i < c.n
      ensures Owned(c, s', z', i)
    {
      RemoveOther(c, s, s', z, z');
      assert Owned(c, s, z', i);
    }
  }

  // ----- a page moves to another frame ----------------------------------------------------------------

  /** The handles of objects that start in the old frame lead to the new one. */
  function Redirected(handles: map<nat, Obj>, from: nat, to: nat): (r: map<nat, Obj>)
    ensures r.Keys == handles.Keys
    ensures forall h :: h in handles ==>
              r[h] == if handles[h].frame == from then Obj(to, handles[h].idx) else handles[h]
  {
    map h | h in handles :: if handles[h].frame == from then Obj(to, handles[h].idx) else handles[h]
  }

  /** zs_page_migrate: page j of zspage z moves to a frame that belongs to no zspage. */
  ghost predicate MigrateStep(c: Class, s: Pool, s': Pool, z: nat, j: nat, to: nat) {
    && InChain(c, s, z) && j < c.p && to !in s.home && to in s.mem && |s.mem[to]| == c.pw
    && var from := s.zs[z].frames[j];
       && s'.mem == s.mem[to := s.mem[from]]
       && s'.zs == s.zs[z := s.zs[z].(frames := s.zs[z].frames[j := to])] && s'.free == s.free
       && s'.handles == Redirected(s.handles, from, to)
       && s'.home == (s.home - {from})[to := Home(z, j)]
  }

  lemma {:induction false} MigrateView(c: Class, s: Pool, s': Pool, z: nat, j: nat, to: nat)
    requires Inv(c, s) && MigrateStep(c, s, s', z, j, to)
    ensures ZspageFits(c, s, z) && InChain(c, s', z) && Flat(c, s', z) == Flat(c, s, z)
  {
    assert ZspageFits(c, s, z);
    FramesNot(c, s, z, to);
    assert Chain(c, s'.mem, s'.zs[z].frames);
    forall m | 0 <= m < Words(c)
      ensures Flat(c, s', z)[m] == Flat(c, s, z)[m]
    {
      PageBound(c, m);
    }
  }

  /** A frame that belongs to no zspage is in no chain. */
  lemma {:induction false} FramesNot(c: Class, s: Pool, z: nat, to: nat)
    requires ZspageFits(c, s, z) && to !in s.home
    ensures forall i :: 0 <= i < c.p ==> s.zs[z].frames[i] != to
  {
    forall i | 0 <= i < c.p
      ensures s.zs[z].frames[i] != to
    {
      assert HomeFits(s, z, i);
    }
  }

  lemma {:induction false} MigrateSelf(c: Class, s: Pool, s': Pool, z: nat, j: nat, to: nat)
    requires Inv(c, s) && MigrateStep(c, s, s', z, j, to)
    ensures ZspageFits(c, s', z)
  {
    MigrateView(c, s, s', z, j, to);
    forall i | 0 <= i < c.p
      ensures HomeFits(s', z, i)
    {
      assert HomeFits(s, z, i) && HomeFits(s, z, j);
    }
  }

  lemma {:induction false} MigrateOther(c: Class, s: Pool, s': Pool, z: nat, j: nat, to: nat, z': nat)
    requires Inv(c, s) && MigrateStep(c, s, s', z, j, to) && z' in s.zs && z' != z
    ensures ZspageFits(c, s, z') && ZspageFits(c, s', z') && s'.zs[z'] == s.zs[z'] && Flat(c, s', z') == Flat(c, s, z')
  {
    ChainsApart(c, s, z, z');
    FramesNot(c, s, z', to);
    ViewElsewhere(c, s.mem, s'.mem, [to], s.zs[z'].frames);
    forall i | 0 <= i < c.p
      ensures HomeFits(s', z', i)
    {
      assert HomeFits(s, z', i);
    }
  }

  /** The frame of an object after the move. */
  lemma {:induction false} MigrateFrame(c: Class, s: Pool, s': Pool, z: nat, j: nat, to: nat, i: nat)
    requires Inv(c, s) && MigrateStep(c, s, s', z, j, to) && i < c.n
    ensures InChain(c, s', z)
    ensures FrameOf(c, s', z, i) == if FrameOf(c, s, z, i) == s.zs[z].frames[j] then to else FrameOf(c, s, z, i)
  {
    MigrateView(c, s, s', z, j, to);
    ObjectFits(c, i);
    PageBound(c, Start(c, i));
    assert HomeFits(s, z, j) && HomeFits(s, z, PageOf(c, Start(c, i)));
  }

  lemma {:induction false} MigrateHandle(c: Class, s: Pool, s': Pool, z: nat, j: nat, to: nat, h: nat)
    requires Inv(c, s) && MigrateStep(c, s, s', z, j, to) && h in s.handles
    ensures HandleFits(c, s, h) && HandleFits(c, s', h) && PayloadOf(c, s', h) == PayloadOf(c, s, h)
  {
    assert HandleFits(c, s, h) && ZspageFits(c, s, z);
    var z', i := ZspageOf(s, h), s.handles[h].idx;
    if z' == z {
      MigrateSelf(c, s, s', z, j, to);
      MigrateView(c, s, s', z, j, to);
      MigrateFrame(c, s, s', z, j, to, i);
      FrameHome(c, s', z, i);
    } else {
      assert HomeFits(s, z, j);
      MigrateOther(c, s, s', z, j, to, z');
      FrameHome(c, s', z', i);
    }
  }

  lemma {:induction false} MigrateOwned(c: Class, s: Pool, s': Pool, z: nat, j: nat, to: nat, z': nat, i: nat)
    requires Inv(c, s) && MigrateStep(c, s, s', z, j, to) && z' in s'.zs && i < c.n
    ensures Owned(c, s', z', i)
  {
    assert Owned(c, s, z', i) && ZspageFits(c, s, z');
    if z' == z {
      MigrateView(c, s, s', z, j, to);
      MigrateFrame(c, s, s', z, j, to, i);
    } else {
      MigrateOther(c, s, s', z, j, to, z');
      assert ZspageFits(c, s, z) && HomeFits(s, z, j);
      FrameHome(c, s, z', i);
    }
  }

  lemma {:induction false} MigrateStepKeeps(c: Class, s: Pool, s': Pool, z: nat, j: nat, to: nat)
    requires Inv(c, s) && MigrateStep(c, s, s', z, j, to)
    ensures Inv(c, s') && AllSame(c, s, s')
  {
    forall z' | z' in s'.zs
      ensures ZspageFits(c, s', z')
    {
      if z' == z {
        MigrateSelf(c, s, s', z, j, to);
      } else {
        MigrateOther(c, s, s', z, j, to, z');
      }
    }
    forall h | h in s.handles
      ensures HandleFits(c, s, h) && HandleFits(c, s', h) && PayloadOf(c, s', h) == PayloadOf(c, s, h)
    {
      MigrateHandle(c, s, s', z, j, to, h);
    }
    forall z', i | z' in s'.zs && 0 <= i < c.n
      ensures Owned(c, s', z', i)
    {
      MigrateOwned(c, s, s', z, j, to, z', i);
    }
  }

  // ----- an object moves to another zspage --------------------------------------------------------------

  /** Only pages of these two chains have changed. */
  predicate OnlyInBoth(mem: Memory, mem': Memory, frames: seq<nat>, frames': seq<nat>) {
    mem'.Keys == mem.Keys && forall f :: f in mem && f !in frames && f !in frames' ==> mem'[f] == mem[f]
  }

  /** One round of migrate_zspage: obj_malloc in the destination with the same handle,
      zs_object_copy, and obj_free in the source. */
  ghost predicate MoveStep(c: Class, s: Pool, s': Pool, h: nat, dst: nat) {
    && HandleFits(c, s, h) && !Huge(c) && InChain(c, s, dst) && ZspageOf(s, h) != dst
    && s.zs[dst].inuse < c.n && s.zs[dst].freeobj < c.n && s.zs[ZspageOf(s, h)].inuse > 0 && s.free[dst] != []
    && var src, i := ZspageOf(s, h), s.handles[h].idx;
       && MoveRecords(c, s, s', h, src, i, dst)
       && OnlyInBoth(s.mem, s'.mem, s.zs[src].frames, s.zs[dst].frames)
       && Chain(c, s'.mem, s.zs[src].frames) && Chain(c, s'.mem, s.zs[dst].frames)
       && View(c, s'.mem, s.zs[src].frames) == FreeFlat(c, Flat(c, s, src), s.zs[src], i)
       && View(c, s'.mem, s.zs[dst].frames) == MovedFlat(c, Flat(c, s, src), i, Flat(c, s, dst), s.zs[dst], h)
  }

  /** What a move does to the handle and to the records of both zspages. */
  ghost predicate MoveRecords(c: Class, s: Pool, s': Pool, h: nat, src: nat, i: nat, dst: nat)
    requires InChain(c, s, src) && InChain(c, s, dst) && s.zs[dst].freeobj < c.n && s.zs[src].inuse > 0 && i < c.n
    requires s.free[dst] != []
  {
    && s'.home == s.home
    && s'.handles == s.handles[h := Obj(FrameOf(c, s, dst, s.zs[dst].freeobj), s.zs[dst].freeobj)]
    && s'.zs == s.zs[src := FreeZspage(c, s.zs[src], i)][dst := MallocZspage(c, Flat(c, s, dst), s.zs[dst], h)]
    && s'.free == s.free[src := [i] + s.free[src]][dst := s.free[dst][1..]]
  }

  /** The destination afterwards: the object is allocated, and all its words are copied. */
  function MovedFlat(c: Class, flat: seq<Word>, i: nat, flatD: seq<Word>, zd: Zspage, h: nat): seq<Word>
    requires Good(c) && |flat| == Words(c) && |flatD| == Words(c) && i < c.n && zd.freeobj < c.n
  {
    ObjectFits(c, zd.freeobj);
    Overwrite(MallocFlat(c, flatD, zd, h), Start(c, zd.freeobj), Object(c, flat, i))
  }

  /** Pages of one chain as they are in mem', the others as they are in mem. */
  function Blend(mem: Memory, mem': Memory, frames: seq<nat>): (r: Memory)
    requires mem'.Keys == mem.Keys
    ensures r.Keys == mem.Keys && forall f :: f in mem ==> r[f] == if f in frames then mem'[f] else mem[f]
  {
    map f | f in mem :: if f in frames then mem'[f] else mem[f]
  }

  lemma {:induction false} BlendView(c: Class, mem: Memory, mem': Memory, frames: seq<nat>)
    requires Good(c) && mem'.Keys == mem.Keys && Chain(c, mem', frames)
    ensures Chain(c, Blend(mem, mem', frames), frames)
    ensures View(c, Blend(mem, mem', frames), frames) == View(c, mem', frames)
  {
    forall m | 0 <= m < Words(c)
      ensures At(c, Blend(mem, mem', frames), frames, m) == At(c, mem', frames, m)
    {
      PageBound(c, m);
    }
  }

  /** The state with the object gone from the source and not yet in the destination. */
  ghost function Gone(c: Class, s: Pool, s': Pool, h: nat): Pool
    requires HandleFits(c, s, h) && s'.mem.Keys == s.mem.Keys && s.zs[ZspageOf(s, h)].inuse > 0
  {
    var src, i := ZspageOf(s, h), s.handles[h].idx;
    Pool(s.zs[src := FreeZspage(c, s.zs[src], i)], Blend(s.mem, s'.mem, s.zs[src].frames), s.home,
         s.handles - {h}, s.free[src := [i] + s.free[src]])
  }

  lemma {:induction false} GoneIsFreed(c: Class, s: Pool, s': Pool, h: nat, dst: nat)
    requires Inv(c, s) && MoveStep(c, s, s', h, dst)
    ensures FreeStep(c, s, Gone(c, s, s', h), h)
  {
    var src := ZspageOf(s, h);
    BlendView(c, s.mem, s'.mem, s.zs[src].frames);
  }

  /** The state with the object allocated in the destination, but not copied. */
  ghost function Landed(c: Class, s1: Pool, h: nat, dst: nat): Pool
    requires InChain(c, s1, dst) && s1.zs[dst].freeobj < c.n && s1.free[dst] != []
  {
    var d := s1.zs[dst].freeobj;
    ObjectFits(c, d);
    Pool(s1.zs[dst := MallocZspage(c, Flat(c, s1, dst), s1.zs[dst], h)],
         Stored(c, s1.mem, s1.zs[dst].frames, Start(c, d), h + 1), s1.home,
         s1.handles[h := Obj(FrameOf(c, s1, dst, d), d)], s1.free[dst := s1.free[dst][1..]])
  }

  lemma {:induction false} LandedIsAllocated(c: Class, s1: Pool, h: nat, dst: nat)
    requires Inv(c, s1) && InChain(c, s1, dst) && !Huge(c) && s1.zs[dst].inuse < c.n && s1.zs[dst].freeobj < c.n
    requires s1.free[dst] != [] && h !in s1.handles && h % 2 == 0
    ensures MallocStep(c, s1, Landed(c, s1, h, dst), dst, h)
  {
    var d := s1.zs[dst].freeobj;
    ObjectFits(c, d);
    StoredView(c, s1.mem, s1.zs[dst].frames, Start(c, d), h + 1);
  }

  /** Copying the object is writing its payload: the first word is the same in both. */
  lemma {:induction false} MovedIsWritten(c: Class, flat: seq<Word>, i: nat, flatD: seq<Word>, zd: Zspage, h: nat)
    requires Good(c) && !Huge(c) && |flat| == Words(c) && |flatD| == Words(c) && i < c.n && zd.freeobj < c.n
    requires Start(c, i) < |flat| && flat[Start(c, i)] == h + 1
    ensures MovedFlat(c, flat, i, flatD, zd, h) ==
            WriteFlat(c, MallocFlat(c, flatD, zd, h), zd.freeobj, Payload(c, flat, i))
  {
    ObjectFits(c, i);
    ObjectFits(c, zd.freeobj);
    var obj, data := Object(c, flat, i), Payload(c, flat, i);
    assert obj[0] == h + 1;
    forall k | 0 <= k < |data|
      ensures data[k] == obj[k + 1]
    {
      assert data[k] == flat[Start(c, i) + 1 + k];
    }
  }

  lemma {:induction false} CopiedIsWritten(c: Class, s: Pool, s': Pool, h: nat, dst: nat)
    requires Inv(c, s) && MoveStep(c, s, s', h, dst) && Inv(c, Gone(c, s, s', h))
    ensures var s1 := Gone(c, s, s', h);
            && InChain(c, s1, dst) && s1.zs[dst] == s.zs[dst] && s1.free[dst] == s.free[dst]
                 && Flat(c, s1, dst) == Flat(c, s, dst)
  {
    GoneIsFreed(c, s, s', h, dst);
    OtherZspage(c, s, Gone(c, s, s', h), ZspageOf(s, h), dst);
  }

  /** The destination's words are as a write of the payload leaves them. */
  lemma {:induction false} LastWords(c: Class, s: Pool, s': Pool, h: nat, dst: nat)
    requires MoveStep(c, s, s', h, dst)
    ensures View(c, s'.mem, s.zs[dst].frames) ==
            WriteFlat(c, MallocFlat(c, Flat(c, s, dst), s.zs[dst], h), s.zs[dst].freeobj, PayloadOf(c, s, h))
  {
    var src, i := ZspageOf(s, h), s.handles[h].idx;
    ObjectFits(c, i);
    MovedIsWritten(c, Flat(c, s, src), i, Flat(c, s, dst), s.zs[dst], h);
  }

  ghost predicate Between(c: Class, s: Pool, s1: Pool, h: nat, dst: nat) {
    && InChain(c, s, dst) && InChain(c, s1, dst) && s1.zs[dst] == s.zs[dst] && s1.free[dst] == s.free[dst]
         && s1.free[dst] != []
    && s1.zs[dst].freeobj < c.n && Flat(c, s1, dst) == Flat(c, s, dst)
         && MallocStep(c, s1, Landed(c, s1, h, dst), dst, h)
  }

  lemma {:induction false} LandedIs(c: Class, s: Pool, s': Pool, h: nat, dst: nat)
    requires MoveStep(c, s, s', h, dst) && Between(c, s, Gone(c, s, s', h), h, dst)
    ensures var s2 := Landed(c, Gone(c, s, s', h), h, dst);
            && s2.zs == s'.zs && s2.free == s'.free && s2.handles == s'.handles && s2.home == s'.home
            && InChain(c, s2, dst) && Flat(c, s2, dst) == MallocFlat(c, Flat(c, s, dst), s.zs[dst], h)
            && s2.zs[dst].frames == s.zs[dst].frames
  {
  }

  lemma {:induction false} LastWrite(c: Class, s: Pool, s': Pool, h: nat, dst: nat)
    requires Inv(c, s) && MoveStep(c, s, s', h, dst) && Between(c, s, Gone(c, s, s', h), h, dst)
    requires HandleFits(c, Landed(c, Gone(c, s, s', h), h, dst), h)
    requires ZspageOf(Landed(c, Gone(c, s, s', h), h, dst), h) == dst
    ensures WriteStep(c, Landed(c, Gone(c, s, s', h), h, dst), s', h, PayloadOf(c, s, h))
  {
    LandedIs(c, s, s', h, dst);
    LastWords(c, s, s', h, dst);
    MemoryLeft(c, s, s', h, dst);
  }

  lemma {:induction false} MemoryLeft(c: Class, s: Pool, s': Pool, h: nat, dst: nat)
    requires Inv(c, s) && MoveStep(c, s, s', h, dst)
    requires InChain(c, Gone(c, s, s', h), dst) && Gone(c, s, s', h).zs[dst] == s.zs[dst]
    requires Gone(c, s, s', h).free[dst] != []
    ensures OnlyIn(Landed(c, Gone(c, s, s', h), h, dst).mem, s'.mem, s.zs[dst].frames)
  {
    var s1, d := Gone(c, s, s', h), s.zs[dst].freeobj;
    ObjectFits(c, d);
    StoredView(c, s1.mem, s.zs[dst].frames, Start(c, d), h + 1);
  }

  /** Moving an object keeps the invariant and what every handle leads to. */
  lemma {:induction false} MoveStepKeeps(c: Class, s: Pool, s': Pool, h: nat, dst: nat)
    requires Inv(c, s) && MoveStep(c, s, s', h, dst)
    ensures Inv(c, s') && AllSame(c, s, s')
  {
    var s1 := Gone(c, s, s', h);
    GoneIsFreed(c, s, s', h, dst);
    FreeStepKeeps(c, s, s1, h);
    CopiedIsWritten(c, s, s', h, dst);
    LandedIsAllocated(c, s1, h, dst);
    var s2 := Landed(c, s1, h, dst);
    MallocStepKeeps(c, s1, s2, dst, h);
    NewHandle(c, s1, s2, dst, h);
    LastWrite(c, s, s', h, dst);
    WriteStepKeeps(c, s2, s', h, PayloadOf(c, s, h));
    SameThrough(c, s, s1, s2, s', h);
  }

  lemma {:induction false} SameThrough(c: Class, s: Pool, s1: Pool, s2: Pool, s3: Pool, h: nat)
    requires HandleFits(c, s, h) && HandleFits(c, s3, h) && PayloadOf(c, s3, h) == PayloadOf(c, s, h)
    requires OthersSame(c, s, s1, h) && OthersSame(c, s1, s2, h) && OthersSame(c, s2, s3, h)
    requires s1.handles.Keys == s.handles.Keys - {h} && s2.handles.Keys == s.handles.Keys
    requires s3.handles.Keys == s.handles.Keys
    ensures AllSame(c, s, s3)
  {
    forall h' | h' in s.handles
      ensures HandleFits(c, s, h') && HandleFits(c, s3, h') && PayloadOf(c, s3, h') == PayloadOf(c, s, h')
    {
      if h' != h {
        assert HandleFits(c, s1, h') && HandleFits(c, s2, h') && HandleFits(c, s3, h');
      }
    }
  }

  // ----- the steps of a move, as they are carried out ------------------------------------------------------

  /** The object d of zspage dst has been given the words of object i of zspage src. */
  ghost predicate CopyChange(c: Class, s: Pool, s': Pool, src: nat, i: nat, dst: nat, d: nat) {
    && InChain(c, s, src) && InChain(c, s, dst) && i < c.n && d < c.n && s' == s.(mem := s'.mem)
    && OnlyIn(s.mem, s'.mem, s.zs[dst].frames) && Chain(c, s'.mem, s.zs[dst].frames) && Start(c, d) + c.sz <= Words(c)
    && Flat(c, s', dst) == Overwrite(Flat(c, s, dst), Start(c, d), Object(c, Flat(c, s, src), i))
  }

  /** Two zspages with different pages: changing one leaves the other alone. */
  lemma {:induction false} ApartStays(c: Class, s: Pool, s': Pool, z: nat, other: nat)
    requires InChain(c, s, z) && InChain(c, s, other) && Apart(s.zs[z].frames, s.zs[other].frames)
    requires OnlyIn(s.mem, s'.mem, s.zs[z].frames) && other in s'.zs && other in s'.free
    requires s'.zs[other].frames == s.zs[other].frames
    ensures InChain(c, s', other) && Flat(c, s', other) == Flat(c, s, other)
  {
    ViewElsewhere(c, s.mem, s'.mem, s.zs[z].frames, s.zs[other].frames);
  }

  lemma {:induction false} MoveWords(
    c: Class, s: Pool, s1: Pool, s2: Pool, s3: Pool, h: nat, src: nat, i: nat, dst: nat)
    requires InChain(c, s, src) && InChain(c, s, dst) && src != dst && !Huge(c) && i < c.n
    requires Apart(s.zs[src].frames, s.zs[dst].frames) && Apart(s.zs[dst].frames, s.zs[src].frames)
    requires AllocChange(c, s, s1, dst, h) && CopyChange(c, s1, s2, src, i, dst, s.zs[dst].freeobj)
    requires FreeChange(c, s2, s3, src, i)
    ensures InChain(c, s3, src) && InChain(c, s3, dst)
    ensures Flat(c, s3, src) == FreeFlat(c, Flat(c, s, src), s.zs[src], i)
    ensures Flat(c, s3, dst) == MovedFlat(c, Flat(c, s, src), i, Flat(c, s, dst), s.zs[dst], h)
  {
    ApartStays(c, s, s1, dst, src);
    ApartStays(c, s1, s2, dst, src);
    ApartStays(c, s2, s3, src, dst);
  }

  lemma {:induction false} MoveMemory(
    c: Class, s: Pool, s1: Pool, s2: Pool, s3: Pool, h: nat, src: nat, i: nat, dst: nat)
    requires InChain(c, s, src) && InChain(c, s, dst) && src != dst
    requires AllocChange(c, s, s1, dst, h) && CopyChange(c, s1, s2, src, i, dst, s.zs[dst].freeobj)
    requires FreeChange(c, s2, s3, src, i)
    ensures OnlyInBoth(s.mem, s3.mem, s.zs[src].frames, s.zs[dst].frames)
  {
    forall f | f in s.mem && f !in s.zs[src].frames && f !in s.zs[dst].frames
      ensures s3.mem[f] == s.mem[f]
    {
      assert s1.mem[f] == s.mem[f] && s2.mem[f] == s1.mem[f];
    }
  }

  lemma {:induction false} RecordsMoved(
    c: Class, s: Pool, s1: Pool, s2: Pool, s3: Pool, h: nat, src: nat, i: nat, dst: nat)
    requires InChain(c, s, src) && InChain(c, s, dst) && src != dst && !Huge(c) && s.free[dst] != []
    requires AllocChange(c, s, s1, dst, h) && CopyChange(c, s1, s2, src, i, dst, s.zs[dst].freeobj)
    requires FreeChange(c, s2, s3, src, i)
    requires s3.handles == s2.handles
    ensures s.zs[src].inuse > 0 && MoveRecords(c, s, s3, h, src, i, dst)
  {
  }

  /** obj_malloc, zs_object_copy and obj_free together are one move. */
  lemma {:induction false} MoveCarriedOut(c: Class, s: Pool, s1: Pool, s2: Pool, s3: Pool, h: nat, dst: nat)
    requires Inv(c, s) && HandleFits(c, s, h) && !Huge(c) && dst in s.zs && ZspageOf(s, h) != dst
    requires s.zs[dst].inuse < c.n
    requires AllocChange(c, s, s1, dst, h)
    requires CopyChange(c, s1, s2, ZspageOf(s, h), s.handles[h].idx, dst, s.zs[dst].freeobj)
    requires FreeChange(c, s2, s3, ZspageOf(s, h), s.handles[h].idx) && s3.handles == s2.handles
    ensures MoveStep(c, s, s3, h, dst)
  {
    var src, i := ZspageOf(s, h), s.handles[h].idx;
    assert ZspageFits(c, s, dst) && ZspageFits(c, s, src);
    FirstFree(c, Flat(c, s, dst), s.zs[dst], s.free[dst]);
    ChainsApart(c, s, src, dst);
    ChainsApart(c, s, dst, src);
    MoveWords(c, s, s1, s2, s3, h, src, i, dst);
    MoveMemory(c, s, s1, s2, s3, h, src, i, dst);
    RecordsMoved(c, s, s1, s2, s3, h, src, i, dst);
  }
}
