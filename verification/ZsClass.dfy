/** A size class of mm/zsmalloc.c, changed in place. */
module ZsClass {
  import opened ZsMemory
  import opened ZsZspage
  import opened ZsInit
  import opened ZsPool
  import opened ZsMoves
  import opened ZsScan

  class Objects {
    const c: Class
    var zs: map<nat, Zspage>
    var mem: Memory
    var home: map<nat, Home>
    var handles: map<nat, Obj>
    ghost var free: map<nat, seq<nat>>

    ghost function State(): Pool
      reads this
    {
      Pool(zs, mem, home, handles, free)
    }

    ghost predicate Valid()
      reads this
    {
      Inv(c, State())
    }

    constructor (c: Class, mem: Memory)
      requires Numbered(c)
      ensures Valid() && this.c == c && this.mem == mem && zs == map[] && handles == map[]
    {
      this.c, this.mem := c, mem;
      zs, home, handles, free := map[], map[], map[], map[];
    }

    // ----- objects ----------------------------------------------------------------------------------

    /** obj_malloc */
    method ObjMalloc(z: nat, h: nat) returns (obj: Obj)
      requires Numbered(c) && ZspageFits(c, State(), z) && zs[z].inuse < c.n
      modifies this`zs, this`mem, this`handles, this`free
      ensures AllocChange(c, old(State()), State(), z, h) && obj == handles[h]
    {
      FirstFree(c, Flat(c, State(), z), zs[z], free[z]);
      var zp, i := zs[z], zs[z].freeobj;
      ObjectFits(c, i);
      PageBound(c, Start(c, i));
      var frame := zp.frames[PageOf(c, Start(c, i))];
      var next := Next(mem[frame][InPage(c, Start(c, i))]);
      if Huge(c) {
        zs := zs[z := zp.(freeobj := next, inuse := zp.inuse + 1, index := h + 1)];
      } else {
        mem := StoreWord(c, mem, zp.frames, Start(c, i), h + 1);
        zs := zs[z := zp.(freeobj := next, inuse := zp.inuse + 1)];
        free := free[z := free[z][1..]];
      }
      obj := Obj(frame, i);
      handles := handles[h := obj];
    }

    /** An object of the zspage that its frame belongs to. */
    ghost predicate IsObject(obj: Obj)
      reads this
    {
      && obj.frame in home && obj.idx < c.n && Numbered(c)
      && InChain(c, State(), home[obj.frame].z) && zs[home[obj.frame].z].inuse > 0
      && obj.frame == FrameOf(c, State(), home[obj.frame].z, obj.idx)
    }

    /** obj_free */
    method ObjFree(obj: Obj)
      requires IsObject(obj)
      modifies this`zs, this`mem, this`free
      ensures FreeChange(c, old(State()), State(), home[obj.frame].z, obj.idx)
    {
      var z := home[obj.frame].z;
      var zp := zs[z];
      ObjectFits(c, obj.idx);
      if Huge(c) {
        zs := zs[z := zp.(freeobj := obj.idx, inuse := zp.inuse - 1, index := 0)];
      } else {
        mem := StoreWord(c, mem, zp.frames, Start(c, obj.idx), Link(zp.freeobj));
        zs := zs[z := zp.(freeobj := obj.idx, inuse := zp.inuse - 1)];
        free := free[z := [obj.idx] + free[z]];
      }
    }

    /** A user's allocation from zspage z. */
    method Allocate(z: nat, h: nat)
      requires Valid() && z in zs && zs[z].inuse < c.n && h !in handles && h % 2 == 0
      modifies this`zs, this`mem, this`handles, this`free
      ensures Valid() && MallocStep(c, old(State()), State(), z, h)
    {
      ghost var s := State();
      assert ZspageFits(c, s, z);
      var _ := ObjMalloc(z, h);
      MallocStepKeeps(c, s, State(), z, h);
    }

    /** The end of a handle and its object. */
    method Release(h: nat)
      requires Valid() && h in handles
      modifies this`zs, this`mem, this`handles, this`free
      ensures Valid() && FreeStep(c, old(State()), State(), h)
    {
      ghost var s := State();
      HandleIsObject(c, s, h);
      ObjFree(handles[h]);
      handles := handles - {h};
      FreeStepKeeps(c, s, State(), h);
    }

    /** zs_map_object for reading: what is copied or mapped is the payload. */
    method Read(h: nat) returns (data: seq<Word>)
      requires Valid() && h in handles
      ensures HandleFits(c, State(), h) && data == PayloadOf(c, State(), h)
    {
      assert HandleFits(c, State(), h);
      var obj := handles[h];
      var z := home[obj.frame].z;
      var buf := ReadObject(c, mem, zs[z].frames, obj.idx);
      data := if Huge(c) then buf else buf[1..];
      PayloadInObject(c, Flat(c, State(), z), obj.idx);
    }

    /** zs_map_object for writing, stores to all of the payload, and zs_unmap_object. */
    method Write(h: nat, data: seq<Word>)
      requires Valid() && h in handles && |data| == if Huge(c) then c.sz else c.sz - 1
      modifies this`mem
      ensures Valid() && WriteStep(c, old(State()), State(), h, data)
    {
      ghost var s := State();
      assert HandleFits(c, s, h);
      var obj := handles[h];
      var z := home[obj.frame].z;
      mem := WriteObject(c, mem, zs[z].frames, obj.idx, if Huge(c) then 0 else 1, data);
      WriteStepKeeps(c, s, State(), h, data);
    }

    // ----- moving objects -----------------------------------------------------------------------------

    /** One round of migrate_zspage. */
    method MoveObject(h: nat, dst: nat)
      requires Valid() && h in handles && !Huge(c) && dst in zs && zs[dst].inuse < c.n
      requires HandleFits(c, State(), h) && ZspageOf(State(), h) != dst
      modifies this`zs, this`mem, this`handles, this`free
      ensures MoveStep(c, old(State()), State(), h, dst)
    {
      ghost var s := State();
      var obj := handles[h];
      var src := home[obj.frame].z;
      HandleIsObject(c, s, h);
      ChainsApart(c, s, dst, src);
      var to := ObjMalloc(dst, h);
      ghost var s1 := State();
      ApartStays(c, s, s1, dst, src);
      mem := ObjectCopy(c, mem, zs[src].frames, obj.idx, zs[dst].frames, to.idx);
      ghost var s2 := State();
      ApartStays(c, s1, s2, dst, src);
      ObjFree(obj);
      MoveCarriedOut(c, s, s1, s2, State(), h, dst);
    }

    /** The next object to move, by the handle in its header. */
    method NextAlloced(z: nat, j: nat, k: nat) returns (found: bool, h: nat, k': nat)
      requires Numbered(c) && ZspageFits(c, State(), z) && !Huge(c) && Scanning(c, State(), z, j, k)
      ensures k <= k' && (found ==> FoundAt(c, State(), z, j, k', h))
      ensures !found ==> NoneInPage(c, State(), z, j)
    {
      PageIs(c, mem, zs[z].frames, j);
      found, h, k' := FindAlloced(c, mem[zs[z].frames[j]], Flat(c, State(), z), j, k);
    }

    /** The object whose header holds handle h moves, and the scan goes on after it. */
    method MoveScanned(h: nat, src: nat, dst: nat, j: nat, k: nat, ghost s0: Pool)
      requires Valid() && !Huge(c) && src in zs && dst in zs && src != dst && zs[dst].inuse < c.n && j < c.p
      requires FoundAt(c, State(), src, j, k, h) && Migrated(c, s0, State(), src, dst)
      modifies this`zs, this`mem, this`handles, this`free
      ensures Valid() && Migrated(c, s0, State(), src, dst) && Scanning(c, State(), src, j, k + 1)
    {
      ghost var s := State();
      FoundHandle(c, s, src, j, k, h);
      MoveObject(h, dst);
      ghost var s' := State();
      MovedScan(c, s0, s, s', h, src, dst, j, k);
    }

    /** Between two rounds of migrate_zspage. */
    ghost predicate Moving(s0: Pool, src: nat, dst: nat, j: nat, k: nat)
      reads this
    {
      Valid() && Migrated(c, s0, State(), src, dst) && Scanning(c, State(), src, j, k) && zs[dst].inuse < c.n
    }

    /** The loop ends when the source is empty or the destination is full. */
    ghost predicate Moved(s0: Pool, src: nat, dst: nat)
      reads this
    {
      Valid() && Migrated(c, s0, State(), src, dst) && (zs[src].inuse == 0 || zs[dst].inuse == c.n)
    }

    /** One round of migrate_zspage. */
    method MigrateRound(src: nat, dst: nat, j: nat, k: nat, ghost s0: Pool) returns (stop: bool, j': nat, k': nat)
      requires Moving(s0, src, dst, j, k) && !Huge(c) && src != dst
      modifies this`zs, this`mem, this`handles, this`free
      ensures stop ==> Moved(s0, src, dst)
      ensures !stop ==> Moving(s0, src, dst, j', k') && k' <= c.n && (j < j' < c.p || (j' == j && k < k'))
    {
      assert ZspageFits(c, State(), src);
      var found, h, m := NextAlloced(src, j, k);
      if found {
        MoveScanned(h, src, dst, j, m, s0);
        assert ZspageFits(c, State(), dst);
        stop, j', k' := zs[dst].inuse == c.n || zs[src].inuse == 0, j, m + 1;
      } else {
        PageDone(c, State(), src, j);
        stop, j', k' := j + 1 == c.p, j + 1, 0;
      }
    }

    /** migrate_zspage: objects move from src to dst until src is empty or dst is full. */
    method MigrateZspage(src: nat, dst: nat)
      requires Valid() && !Huge(c) && src in zs && dst in zs && src != dst && zs[dst].inuse < c.n
      modifies this`zs, this`mem, this`handles, this`free
      ensures Moved(old(State()), src, dst)
    {
      ghost var s0 := State();
      var j: nat, k: nat, stop := 0, 0, false;
      assert ZspageFits(c, s0, src);
      StartScan(c, s0, src, dst);
      while !stop
        invariant stop ==> Moved(s0, src, dst)
        invariant !stop ==> Moving(s0, src, dst, j, k) && k <= c.n
        decreases !stop, c.p - j, c.n - k
      {
        stop, j, k := MigrateRound(src, dst, j, k, s0);
      }
    }

    // ----- moving pages -------------------------------------------------------------------------------

    /** The loop of zs_page_migrate over the objects that start in the page. */
    method RedirectHandles(z: nat, j: nat, to: nat)
      requires Valid() && z in zs && j < c.p && j < |zs[z].frames|
      modifies this`handles
      ensures handles == Redirected(old(handles), zs[z].frames[j], to)
    {
      ghost var s, m := State(), FirstObject(c, j);
      var off := FirstOffset(c, j);
      RedirectStart(c, s, z, j, to);
      while off < c.pw
        invariant Redirecting(c, s, handles, z, j, to, m, off)
        decreases c.pw - off
      {
        RedirectNext(c, s, handles, z, j, to, m, off);
        var w := Tag(c, zs[z], mem[zs[z].frames[j]][off]);
        if w % 2 == 1 {
          handles := handles[w - 1 := Obj(to, handles[w - 1].idx)];
        }
        off := off + c.sz;
        m := m + 1;
      }
      AllAfter(c, s, z, j, to, m);
    }

    /** zs_page_migrate and replace_sub_page: page j of zspage z moves to a free frame. */
    method MigratePage(z: nat, j: nat, to: nat)
      requires Valid() && z in zs && j < c.p && to in mem && |mem[to]| == c.pw && to !in home
      modifies this`zs, this`mem, this`home, this`handles
      ensures Valid() && MigrateStep(c, old(State()), State(), z, j, to)
    {
      ghost var s := State();
      assert ZspageFits(c, s, z);
      var from := zs[z].frames[j];
      RedirectHandles(z, j, to);
      mem := mem[to := mem[from]];
      zs := zs[z := zs[z].(frames := zs[z].frames[j := to])];
      home := (home - {from})[to := Home(z, j)];
      MigrateStepKeeps(c, s, State(), z, j, to);
    }

    // ----- zspages come and go --------------------------------------------------------------------------

    /** create_page_chain: the pages know their zspage. */
    method ChainPages(z: nat, frames: seq<nat>)
      requires |frames| == c.p && forall j :: 0 <= j < |frames| ==> frames[j] !in home
      requires forall i, j :: 0 <= i < j < |frames| ==> frames[i] != frames[j]
      modifies this`home
      ensures forall f :: f in old(home) ==> f in home && home[f] == old(home)[f]
      ensures forall j :: 0 <= j < |frames| ==> frames[j] in home && home[frames[j]] == Home(z, j)
    {
      var j := 0;
      while j < |frames|
        invariant j <= |frames|
        invariant forall f :: f in old(home) ==> f in home && home[f] == old(home)[f]
        invariant forall i :: 0 <= i < j ==> frames[i] in home && home[frames[i]] == Home(z, i)
      {
        home := home[frames[j] := Home(z, j)];
        j := j + 1;
      }
    }

    /** alloc_zspage, with the pages that the page allocator gave. */
    method AddZspage(z: nat, frames: seq<nat>)
      requires Valid() && z !in zs && Chain(c, mem, frames) && forall j :: 0 <= j < |frames| ==> frames[j] !in home
      modifies this`zs, this`mem, this`home, this`free
      ensures Valid() && AddStep(c, old(State()), State(), z, frames)
    {
      ghost var s := State();
      ChainPages(z, frames);
      var offsets;
      mem, offsets := InitZspage(c, mem, frames);
      zs := zs[z := Zspage(frames, 0, 0, 0)];
      free := free[z := InSequence(c.n)];
      AddStepKeeps(c, s, State(), z, frames);
    }

    /** __free_zspage: the pages of an empty zspage are given back. */
    method RemoveZspage(z: nat)
      requires Valid() && z in zs && zs[z].inuse == 0
      modifies this`zs, this`home, this`free
      ensures Valid() && RemoveStep(c, old(State()), State(), z)
      ensures forall j :: 0 <= j < |old(zs)[z].frames| ==> old(zs)[z].frames[j] !in home
    {
      ghost var s := State();
      assert ZspageFits(c, s, z);
      var frames := zs[z].frames;
      var j := 0;
      while j < |frames|
        modifies this`home
        invariant j <= |frames|
        invariant forall f :: f in home ==> f in s.home && home[f] == s.home[f]
        invariant forall f :: f in s.home && s.home[f].z != z ==> f in home
        invariant forall i :: 0 <= i < j ==> frames[i] !in home
      {
        assert HomeFits(s, z, j);
        home := home - {frames[j]};
        j := j + 1;
      }
      zs := zs - {z};
      free := free - {z};
      RemoveStepKeeps(c, s, State(), z);
    }
  }

  lemma {:induction false} StartScan(c: Class, s: Pool, src: nat, dst: nat)
    requires Inv(c, s) && src in s.zs && dst in s.zs && ZspageFits(c, s, src) && s.zs[dst].inuse < c.n
    ensures Migrated(c, s, s, src, dst) && Scanning(c, s, src, 0, 0)
  {
    forall h | h in s.handles
      ensures HandleFits(c, s, h)
    {
    }
    ScanPage(c, Flat(c, s, src), 0);
  }

  /** No object that starts in page j of zspage z or before is allocated. */
  ghost predicate NoneInPage(c: Class, s: Pool, z: nat, j: nat) {
    InChain(c, s, z) && Missed(c, Flat(c, s, z), j)
  }

  lemma {:induction false} PageDone(c: Class, s: Pool, z: nat, j: nat)
    requires Numbered(c) && !Huge(c) && ZspageFits(c, s, z) && j < c.p && NoneInPage(c, s, z, j)
    ensures j + 1 == c.p ==> s.zs[z].inuse == 0
    ensures j + 1 < c.p ==> Scanning(c, s, z, j + 1, 0)
  {
    if j + 1 == c.p {
      NoneMeansEmpty(c, Flat(c, s, z), s.zs[z], s.free[z]);
    } else {
      ScanPage(c, Flat(c, s, z), j + 1);
    }
  }

  lemma {:induction false} HandleIsObject(c: Class, s: Pool, h: nat)
    requires Inv(c, s) && h in s.handles
    ensures HandleFits(c, s, h) && s.zs[ZspageOf(s, h)].inuse > 0
  {
    assert HandleFits(c, s, h) && ZspageFits(c, s, ZspageOf(s, h));
    var z := ZspageOf(s, h);
    FreeKeeps(c, Flat(c, s, z), s.zs[z], s.free[z], s.handles[h].idx);
  }

  lemma {:induction false} PayloadInObject(c: Class, flat: seq<Word>, i: nat)
    requires Good(c) && |flat| == Words(c) && i < c.n
    ensures Payload(c, flat, i) == if Huge(c) then Object(c, flat, i) else Object(c, flat, i)[1..]
  {
    ObjectFits(c, i);
    SliceOfSlice(flat, Start(c, i), c.sz, 1, c.sz - 1);
    var obj := Object(c, flat, i);
    assert obj[1..] == obj[1..1 + (c.sz - 1)];
  }
}
