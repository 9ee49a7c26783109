/** The objects of one size class of a pool in mm/zsmalloc.c: zspages in memory, and handles that
    lead to objects. */
module ZsPool {
  import opened ZsMemory
  import opened ZsZspage

  /** What a handle holds: the frame where its object starts, and the object's number. */
  datatype Obj = Obj(frame: nat, idx: nat)

  /** Which zspage a page belongs to (page_private), and its place in the chain. */
  datatype Home = Home(z: nat, j: nat)

  /** The state, and for each zspage its free list as it can be read off the memory. */
  datatype Pool = Pool(
    zs: map<nat, Zspage>,
    mem: Memory,
    home: map<nat, Home>,
    handles: map<nat, Obj>,
    free: map<nat, seq<nat>>)

  predicate InChain(c: Class, s: Pool, z: nat) {
    z in s.zs && z in s.free && Good(c) && Chain(c, s.mem, s.zs[z].frames)
  }

  function Flat(c: Class, s: Pool, z: nat): (r: seq<Word>)
    requires InChain(c, s, z)
    ensures |r| == Words(c)
  {
    View(c, s.mem, s.zs[z].frames)
  }

  /** The frame where object i of zspage z starts. */
  function FrameOf(c: Class, s: Pool, z: nat, i: nat): nat
    requires InChain(c, s, z) && i < c.n
  {
    ObjectFits(c, i);
    PageBound(c, Start(c, i));
    s.zs[z].frames[PageOf(c, Start(c, i))]
  }

  predicate HomeFits(s: Pool, z: nat, j: nat)
    requires z in s.zs && j < |s.zs[z].frames|
  {
    s.zs[z].frames[j] in s.home && s.home[s.zs[z].frames[j]] == Home(z, j)
  }

  ghost predicate ZspageFits(c: Class, s: Pool, z: nat) {
    && InChain(c, s, z)
    && (forall j :: 0 <= j < c.p ==> HomeFits(s, z, j))
    && Consistent(c, Flat(c, s, z), s.zs[z], s.free[z])
  }

  /** Handle h leads to an object that is marked as its own. */
  predicate HandleFits(c: Class, s: Pool, h: nat) {
    && h in s.handles && h % 2 == 0 && s.handles[h].idx < c.n && s.handles[h].frame in s.home
    && var z := s.home[s.handles[h].frame].z;
       InChain(c, s, z) && s.handles[h].frame == FrameOf(c, s, z, s.handles[h].idx) &&
       Header(c, Flat(c, s, z), s.zs[z], s.handles[h].idx) == h + 1
  }

  /** An object that is marked as allocated is the object of the handle it is marked with. */
  predicate ObjectOwned(c: Class, s: Pool, z: nat, i: nat)
    requires InChain(c, s, z) && i < c.n
  {
    var w := Header(c, Flat(c, s, z), s.zs[z], i);
    w % 2 == 1 ==> w - 1 in s.handles && s.handles[w - 1] == Obj(FrameOf(c, s, z, i), i)
  }

  predicate Owned(c: Class, s: Pool, z: nat, i: nat) {
    InChain(c, s, z) && i < c.n && ObjectOwned(c, s, z, i)
  }

  ghost predicate Inv(c: Class, s: Pool) {
    && Numbered(c) && s.free.Keys == s.zs.Keys
    && (forall z {:trigger ZspageFits(c, s, z)} :: z in s.zs ==> ZspageFits(c, s, z))
    && (forall h {:trigger HandleFits(c, s, h)} :: h in s.handles ==> HandleFits(c, s, h))
    && (forall z, i {:trigger Owned(c, s, z, i)} :: z in s.zs && 0 <= i < c.n ==> Owned(c, s, z, i))
  }

  /** The zspage of a handle. */
  function ZspageOf(s: Pool, h: nat): nat
    requires h in s.handles && s.handles[h].frame in s.home
  {
    s.home[s.handles[h].frame].z
  }

  /** What the user of a handle has stored. */
  function PayloadOf(c: Class, s: Pool, h: nat): seq<Word>
    requires HandleFits(c, s, h)
  {
    Payload(c, Flat(c, s, ZspageOf(s, h)), s.handles[h].idx)
  }

  /** The pool as its users see it: a map from handles to what is stored. */
  ghost function Content(c: Class, s: Pool): (m: map<nat, seq<Word>>)
    requires Inv(c, s)
    ensures m.Keys == s.handles.Keys
  {
    map h | h in s.handles :: assert HandleFits(c, s, h); PayloadOf(c, s, h)
  }

  // ----- changing one zspage ------------------------------------------------------------------------

  /** Different zspages have different pages. */
  lemma {:induction false} ChainsApart(c: Class, s: Pool, z: nat, z': nat)
    requires Inv(c, s) && z in s.zs && z' in s.zs && z != z'
    ensures ZspageFits(c, s, z) && ZspageFits(c, s, z') && Apart(s.zs[z].frames, s.zs[z'].frames)
  {
    assert ZspageFits(c, s, z) && ZspageFits(c, s, z');
    forall i, j | 0 <= i < c.p && 0 <= j < c.p
      ensures s.zs[z].frames[i] != s.zs[z'].frames[j]
    {
      assert HomeFits(s, z, i) && HomeFits(s, z', j);
    }
  }

  /** s' differs from s in zspage z, its memory and the handles only; no page moves. */
  predicate OnlyZspage(c: Class, s: Pool, s': Pool, z: nat) {
    && InChain(c, s, z) && z in s'.zs && z in s'.free
    && s'.zs == s.zs[z := s'.zs[z]] && s'.free == s.free[z := s'.free[z]] && s'.home == s.home
    && s'.zs[z].frames == s.zs[z].frames && OnlyIn(s.mem, s'.mem, s.zs[z].frames) && Chain(c, s'.mem, s.zs[z].frames)
  }

  /** The other zspages are as they were. */
  lemma {:induction false} OtherZspage(c: Class, s: Pool, s': Pool, z: nat, z': nat)
    requires Inv(c, s) && OnlyZspage(c, s, s', z) && z' in s.zs && z' != z
    ensures ZspageFits(c, s, z') && ZspageFits(c, s', z') && s'.zs[z'] == s.zs[z'] && Flat(c, s', z') == Flat(c, s, z')
  {
    ChainsApart(c, s, z, z');
    ViewElsewhere(c, s.mem, s'.mem, s.zs[z].frames, s.zs[z'].frames);
    forall j | 0 <= j < c.p
      ensures HomeFits(s', z', j)
    {
      assert HomeFits(s, z', j);
    }
  }

  /** A handle of another zspage still fits, and its content is the same. */
  lemma {:induction false} OtherHandle(c: Class, s: Pool, s': Pool, z: nat, h: nat)
    requires Inv(c, s) && OnlyZspage(c, s, s', z) && h in s.handles && h in s'.handles && s'.handles[h] == s.handles[h]
    requires HandleFits(c, s, h) && ZspageOf(s, h) != z
    ensures HandleFits(c, s', h) && PayloadOf(c, s', h) == PayloadOf(c, s, h)
  {
    OtherZspage(c, s, s', z, ZspageOf(s, h));
  }

  /** A handle of the zspage that changed still fits if the header of its object is as before. */
  lemma {:induction false} SameHandle(c: Class, s: Pool, s': Pool, z: nat, h: nat)
    requires Inv(c, s) && OnlyZspage(c, s, s', z) && h in s.handles && h in s'.handles && s'.handles[h] == s.handles[h]
    requires HandleFits(c, s, h) && ZspageOf(s, h) == z
    requires var i := s.handles[h].idx;
             && Header(c, Flat(c, s', z), s'.zs[z], i) == Header(c, Flat(c, s, z), s.zs[z], i)
             && Payload(c, Flat(c, s', z), i) == Payload(c, Flat(c, s, z), i)
    ensures HandleFits(c, s', h) && PayloadOf(c, s', h) == PayloadOf(c, s, h)
  {
  }

  /** What is left to show for the invariant after one zspage has changed. */
  lemma {:induction false} ChangeKeeps(c: Class, s: Pool, s': Pool, z: nat)
    requires Inv(c, s) && OnlyZspage(c, s, s', z) && Consistent(c, Flat(c, s', z), s'.zs[z], s'.free[z])
    requires forall h :: h in s'.handles ==> HandleFits(c, s', h)
    requires forall i :: 0 <= i < c.n ==> Owned(c, s', z, i)
    requires forall h :: h in s.handles && HandleFits(c, s, h) && ZspageOf(s, h) != z ==>
               h in s'.handles && s'.handles[h] == s.handles[h]
    ensures Inv(c, s')
  {
    forall z' | z' in s'.zs
      ensures ZspageFits(c, s', z')
    {
      assert ZspageFits(c, s, z');
      if z' != z {
        OtherZspage(c, s, s', z, z');
      } else {
        forall j | 0 <= j < c.p
          ensures HomeFits(s', z, j)
        {
          assert HomeFits(s, z, j);
        }
      }
    }
    forall z', i | z' in s'.zs && 0 <= i < c.n
      ensures Owned(c, s', z', i)
    {
      if z' != z {
        OtherObject(c, s, s', z, z', i);
      }
    }
  }

  lemma {:induction false} OtherObject(c: Class, s: Pool, s': Pool, z: nat, z': nat, i: nat)
    requires Inv(c, s) && OnlyZspage(c, s, s', z) && z' in s.zs && z' != z && i < c.n
    requires forall h :: h in s.handles && HandleFits(c, s, h) && ZspageOf(s, h) != z ==>
               h in s'.handles && s'.handles[h] == s.handles[h]
    ensures Owned(c, s', z', i)
  {
    OtherZspage(c, s, s', z, z');
    assert Owned(c, s, z', i);
    var w := Header(c, Flat(c, s, z'), s.zs[z'], i);
    if w % 2 == 1 {
      assert HandleFits(c, s, w - 1);
      FrameHome(c, s, z', i);
    }
  }

  lemma {:induction false} FrameHome(c: Class, s: Pool, z: nat, i: nat)
    requires ZspageFits(c, s, z) && i < c.n
    ensures FrameOf(c, s, z, i) in s.home && s.home[FrameOf(c, s, z, i)] == Home(z, PageOf(c, Start(c, i)))
  {
    ObjectFits(c, i);
    PageBound(c, Start(c, i));
    assert HomeFits(s, z, PageOf(c, Start(c, i)));
  }

  /** All handles but h are as before, and so is what they lead to. */
  ghost predicate OthersSame(c: Class, s: Pool, s': Pool, h: nat) {
    forall h' {:trigger HandleFits(c, s', h')} ::
      h' in s.handles && h' != h ==>
        && h' in s'.handles && HandleFits(c, s, h') && HandleFits(c, s', h')
        && PayloadOf(c, s', h') == PayloadOf(c, s, h')
  }

  // ----- allocating -----------------------------------------------------------------------------------

  /** obj_malloc: the first free object of zspage z becomes the object of handle h. */
  ghost predicate AllocChange(c: Class, s: Pool, s': Pool, z: nat, h: nat) {
    && OnlyZspage(c, s, s', z) && s.zs[z].inuse < c.n && s.zs[z].freeobj < c.n
    && s'.handles == s.handles[h := Obj(FrameOf(c, s, z, s.zs[z].freeobj), s.zs[z].freeobj)]
    && Flat(c, s', z) == MallocFlat(c, Flat(c, s, z), s.zs[z], h)
    && s'.zs[z] == MallocZspage(c, Flat(c, s, z), s.zs[z], h)
    && s'.free[z] == if Huge(c) || s.free[z] == [] then s.free[z] else s.free[z][1..]
  }

  ghost predicate MallocStep(c: Class, s: Pool, s': Pool, z: nat, h: nat) {
    AllocChange(c, s, s', z, h) && h !in s.handles && h % 2 == 0
  }

  lemma {:induction false} MallocHandle(c: Class, s: Pool, s': Pool, z: nat, h: nat, h': nat)
    requires Inv(c, s) && MallocStep(c, s, s', z, h) && h' in s.handles
    ensures HandleFits(c, s, h') && HandleFits(c, s', h') && PayloadOf(c, s', h') == PayloadOf(c, s, h')
  {
    assert HandleFits(c, s, h') && ZspageFits(c, s, z);
    if ZspageOf(s, h') == z {
      FirstFree(c, Flat(c, s, z), s.zs[z], s.free[z]);
      MallocElsewhere(c, Flat(c, s, z), s.zs[z], h, s.handles[h'].idx);
      SameHandle(c, s, s', z, h');
    } else {
      OtherHandle(c, s, s', z, h');
    }
  }

  lemma {:induction false} NewHandle(c: Class, s: Pool, s': Pool, z: nat, h: nat)
    requires Inv(c, s) && MallocStep(c, s, s', z, h)
    ensures HandleFits(c, s', h) && ZspageOf(s', h) == z
  {
    assert ZspageFits(c, s, z);
    FrameHome(c, s, z, s.zs[z].freeobj);
    MallocElsewhere(c, Flat(c, s, z), s.zs[z], h, s.zs[z].freeobj);
  }

  lemma {:induction false} MallocOwned(c: Class, s: Pool, s': Pool, z: nat, h: nat, i: nat)
    requires Inv(c, s) && MallocStep(c, s, s', z, h) && i < c.n
    ensures Owned(c, s', z, i)
  {
    assert Owned(c, s, z, i);
    MallocElsewhere(c, Flat(c, s, z), s.zs[z], h, i);
  }

  lemma {:induction false} MallocStepKeeps(c: Class, s: Pool, s': Pool, z: nat, h: nat)
    requires Inv(c, s) && MallocStep(c, s, s', z, h)
    ensures Inv(c, s') && OthersSame(c, s, s', h) && h in s'.handles && HandleFits(c, s', h)
  {
    assert ZspageFits(c, s, z);
    FirstFree(c, Flat(c, s, z), s.zs[z], s.free[z]);
    MallocKeeps(c, Flat(c, s, z), s.zs[z], s.free[z], h);
    NewHandle(c, s, s', z, h);
    forall h' | h' in s.handles
      ensures HandleFits(c, s, h') && HandleFits(c, s', h') && PayloadOf(c, s', h') == PayloadOf(c, s, h')
    {
      MallocHandle(c, s, s', z, h, h');
    }
    forall i | 0 <= i < c.n
      ensures Owned(c, s', z, i)
    {
      MallocOwned(c, s, s', z, h, i);
    }
    ChangeKeeps(c, s, s', z);
  }

  // ----- freeing --------------------------------------------------------------------------------------

  /** obj_free: object i of zspage z goes to the front of the free list. */
  ghost predicate FreeChange(c: Class, s: Pool, s': Pool, z: nat, i: nat) {
    && OnlyZspage(c, s, s', z) && s.zs[z].inuse > 0 && i < c.n
    && Flat(c, s', z) == FreeFlat(c, Flat(c, s, z), s.zs[z], i)
    && s'.zs[z] == FreeZspage(c, s.zs[z], i)
    && s'.free[z] == if Huge(c) then s.free[z] else [i] + s.free[z]
  }

  /** obj_free and the end of the handle. */
  ghost predicate FreeStep(c: Class, s: Pool, s': Pool, h: nat) {
    && HandleFits(c, s, h) && FreeChange(c, s, s', ZspageOf(s, h), s.handles[h].idx)
    && s'.handles == s.handles - {h}
  }

  lemma {:induction false} FreeHandle(c: Class, s: Pool, s': Pool, h: nat, h': nat)
    requires Inv(c, s) && FreeStep(c, s, s', h) && h' in s.handles && h' != h
    ensures HandleFits(c, s, h') && HandleFits(c, s', h') && PayloadOf(c, s', h') == PayloadOf(c, s, h')
  {
    var z := ZspageOf(s, h);
    assert HandleFits(c, s, h');
    if ZspageOf(s, h') == z {
      assert s.handles[h'].idx != s.handles[h].idx;
      FreeElsewhere(c, Flat(c, s, z), s.zs[z], s.handles[h].idx, s.handles[h'].idx);
      SameHandle(c, s, s', z, h');
    } else {
      OtherHandle(c, s, s', z, h');
    }
  }

  lemma {:induction false} FreeOwned(c: Class, s: Pool, s': Pool, h: nat, i: nat)
    requires Inv(c, s) && FreeStep(c, s, s', h) && i < c.n
    ensures Owned(c, s', ZspageOf(s, h), i)
  {
    var z := ZspageOf(s, h);
    assert Owned(c, s, z, i) && ZspageFits(c, s, z);
    FreeElsewhere(c, Flat(c, s, z), s.zs[z], s.handles[h].idx, i);
    if i == s.handles[h].idx {
      LinkIsEven(c, Flat(c, s, z), s.zs[z], s.free[z]);
    }
  }

  lemma {:induction false} LinkIsEven(c: Class, flat: seq<Word>, z: Zspage, fl: seq<nat>)
    requires Numbered(c) && Consistent(c, flat, z, fl)
    ensures !Huge(c) ==> Link(z.freeobj) % 2 == 0
  {
    if !Huge(c) {
      if fl != [] {
        assert LinkedAt(c, flat, fl, 0);
      }
      LinkNext(c, z.freeobj);
    }
  }

  lemma {:induction false} FreeStepKeeps(c: Class, s: Pool, s': Pool, h: nat)
    requires Inv(c, s) && FreeStep(c, s, s', h)
    ensures Inv(c, s') && OthersSame(c, s, s', h) && h !in s'.handles
  {
    var z := ZspageOf(s, h);
    assert ZspageFits(c, s, z);
    FreeKeeps(c, Flat(c, s, z), s.zs[z], s.free[z], s.handles[h].idx);
    forall h' | h' in s.handles && h' != h
      ensures HandleFits(c, s, h') && HandleFits(c, s', h') && PayloadOf(c, s', h') == PayloadOf(c, s, h')
    {
      FreeHandle(c, s, s', h, h');
    }
    forall i | 0 <= i < c.n
      ensures Owned(c, s', z, i)
    {
      FreeOwned(c, s, s', h, i);
    }
    ChangeKeeps(c, s, s', z);
  }

  // ----- writing --------------------------------------------------------------------------------------

  /** A write through handle h, from mapping the object to unmapping it. */
  ghost predicate WriteStep(c: Class, s: Pool, s': Pool, h: nat, data: seq<Word>) {
    && HandleFits(c, s, h) && |data| == |PayloadOf(c, s, h)|
    && var z, i := ZspageOf(s, h), s.handles[h].idx;
       && OnlyZspage(c, s, s', z) && s'.zs == s.zs && s'.free == s.free && s'.handles == s.handles
       && Flat(c, s', z) == WriteFlat(c, Flat(c, s, z), i, data)
  }

  lemma {:induction false} WriteHandle(c: Class, s: Pool, s': Pool, h: nat, data: seq<Word>, h': nat)
    requires Inv(c, s) && WriteStep(c, s, s', h, data) && h' in s.handles
    ensures HandleFits(c, s, h') && HandleFits(c, s', h')
    ensures PayloadOf(c, s', h') == if h' == h then data else PayloadOf(c, s, h')
  {
    var z := ZspageOf(s, h);
    assert HandleFits(c, s, h');
    if ZspageOf(s, h') == z {
      WriteElsewhere(c, Flat(c, s, z), s.handles[h].idx, data, s.handles[h'].idx);
    } else {
      OtherHandle(c, s, s', z, h');
    }
  }

  lemma {:induction false} WriteKeepsZspage(c: Class, s: Pool, s': Pool, h: nat, data: seq<Word>)
    requires Inv(c, s) && WriteStep(c, s, s', h, data)
    ensures var z := ZspageOf(s, h);
            && Consistent(c, Flat(c, s', z), s'.zs[z], s'.free[z])
            && forall i :: 0 <= i < c.n ==> SameHeader(c, Flat(c, s, z), Flat(c, s', z), i)
  {
    var z := ZspageOf(s, h);
    assert ZspageFits(c, s, z);
    var flat, flat' := Flat(c, s, z), Flat(c, s', z);
    forall i | 0 <= i < c.n
      ensures SameHeader(c, flat, flat', i)
    {
      WriteElsewhere(c, flat, s.handles[h].idx, data, i);
    }
    StartsDiffer(c, s.handles[h].idx, c.n);
    WriteConsistent(c, flat, flat', s.zs[z], s.free[z]);
  }

  lemma {:induction false} WriteOwned(c: Class, s: Pool, s': Pool, h: nat, data: seq<Word>, i: nat)
    requires Inv(c, s) && WriteStep(c, s, s', h, data) && i < c.n
    requires SameHeader(c, Flat(c, s, ZspageOf(s, h)), Flat(c, s', ZspageOf(s, h)), i)
    ensures Owned(c, s', ZspageOf(s, h), i)
  {
    assert Owned(c, s, ZspageOf(s, h), i);
  }

  lemma {:induction false} WriteStepKeeps(c: Class, s: Pool, s': Pool, h: nat, data: seq<Word>)
    requires Inv(c, s) && WriteStep(c, s, s', h, data)
    ensures Inv(c, s') && OthersSame(c, s, s', h) && HandleFits(c, s', h) && PayloadOf(c, s', h) == data
  {
    var z := ZspageOf(s, h);
    WriteKeepsZspage(c, s, s', h, data);
    forall h' | h' in s.handles
      ensures HandleFits(c, s, h') && HandleFits(c, s', h')
      ensures PayloadOf(c, s', h') == if h' == h then data else PayloadOf(c, s, h')
    {
      WriteHandle(c, s, s', h, data, h');
    }
    forall i | 0 <= i < c.n
      ensures Owned(c, s', z, i)
    {
      WriteOwned(c, s, s', h, data, i);
    }
    ChangeKeeps(c, s, s', z);
  }

  predicate SameHeader(c: Class, flat: seq<Word>, flat': seq<Word>, i: nat) {
    !Huge(c) ==> Start(c, i) < |flat| && Start(c, i) < |flat'| && flat'[Start(c, i)] == flat[Start(c, i)]
  }

  lemma {:induction false} WriteConsistent(c: Class, flat: seq<Word>, flat': seq<Word>, z: Zspage, fl: seq<nat>)
    requires Consistent(c, flat, z, fl) && |flat'| == |flat|
    requires forall i :: 0 <= i < c.n ==> SameHeader(c, flat, flat', i)
    requires HasTail(c) ==> SameHeader(c, flat, flat', c.n)
    ensures Consistent(c, flat', z, fl)
  {
    if !Huge(c) {
      forall k | 0 <= k < |fl|
        ensures LinkedAt(c, flat', fl, k)
      {
        assert LinkedAt(c, flat, fl, k);
        assert SameHeader(c, flat, flat', fl[k]);
      }
      forall i | 0 <= i < c.n
        ensures TaggedAt(c, flat', fl, i)
      {
        assert TaggedAt(c, flat, fl, i) && SameHeader(c, flat, flat', i);
      }
    }
  }
}
