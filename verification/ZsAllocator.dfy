/** zs_malloc, zs_free, compaction and deferred freeing in mm/zsmalloc.c, for one size class. */
module ZsAllocator {
  import opened ZsMemory
  import opened ZsZspage
  import opened ZsPool
  import opened ZsMoves
  import opened ZsClass
  import opened ZsLists

  /** What the page allocator and the zspage cache give when asked for a new zspage. */
  datatype Supply = NoPages | Pages(z: nat, frames: seq<nat>)

  /** The objects, the lists and the counters fit together; `out` are the isolated zspages. */
  ghost predicate Fits(c: Class, s: Pool, q: Lists, out: set<nat>) {
    Inv(c, s) && ListsFit(c, s.zs, q, out) && SumsFit(c, s.zs, q)
  }

  lemma {:induction false} InuseBound(c: Class, s: Pool, z: nat)
    requires Inv(c, s) && z in s.zs
    ensures s.zs[z].inuse <= c.n && c.n > 0
  {
    assert ZspageFits(c, s, z);
  }

  // ----- one zspage changes ---------------------------------------------------------------------------

  /** After one zspage has gained or lost an object, fix_fullness_group and the count of objects
      in use make all fit again. */
  lemma {:induction false} FixedFits(c: Class, s: Pool, s': Pool, q: Lists, out: set<nat>, z: nat)
    requires Fits(c, s, q, out) && Inv(c, s') && z in s.zs && z !in out && z !in q.inflight && s'.zs.Keys == s.zs.Keys
    requires forall x :: x in s.zs && x != z ==> s'.zs[x].inuse == s.zs[x].inuse
    requires q.used + s'.zs[z].inuse >= s.zs[z].inuse
    ensures c.n > 0 && z in q.fullness && |q.lists| == GROUPS && |q.stat| == GROUPS && Group(c, s'.zs[z].inuse) < GROUPS
    ensures q.fullness[z] < GROUPS && q.stat[q.fullness[z]] > 0
    ensures var q' := Fixed(c, s'.zs, q, z);
            Fits(c, s', q'.(used := q.used + s'.zs[z].inuse - s.zs[z].inuse), out)
  {
    InuseBound(c, s', z);
    FixFits(c, s.zs, s'.zs, q, out, z);
    TotalUpdate(s.zs, s'.zs, z);
    var q' := Fixed(c, s'.zs, q, z);
    SameLists(c, s'.zs, q', q'.(used := q.used + s'.zs[z].inuse - s.zs[z].inuse), out);
    assert |s'.zs| == |s'.zs.Keys| && |s.zs| == |s.zs.Keys|;
  }

  /** The counts of objects and pages play no part in the lists. */
  lemma {:induction false} SameLists(c: Class, zs: map<nat, Zspage>, q: Lists, q': Lists, out: set<nat>)
    requires ListsFit(c, zs, q, out) && q'.lists == q.lists && q'.fullness == q.fullness && q'.stat == q.stat
    requires q'.inflight == q.inflight
    ensures ListsFit(c, zs, q', out)
  {
    forall g | 0 <= g < GROUPS
      ensures CountFits(q', g)
    {
      assert CountFits(q, g);
    }
    forall g, k | 0 <= g < GROUPS && 0 <= k < |q'.lists[g]|
      ensures ListedAt(c, zs, q', out, g, k)
    {
      assert ListedAt(c, zs, q, out, g, k);
    }
    forall z | z in zs
      ensures Filed(c, zs, q', out, z)
    {
      assert Filed(c, zs, q, out, z);
    }
  }

  /** What the steps do to the numbers of objects. */
  lemma {:induction false} MallocNumbers(c: Class, s: Pool, s': Pool, z: nat, h: nat)
    requires MallocStep(c, s, s', z, h)
    ensures z in s.zs && s'.zs.Keys == s.zs.Keys && s'.zs[z].inuse == s.zs[z].inuse + 1
    ensures forall x :: x in s.zs && x != z ==> s'.zs[x].inuse == s.zs[x].inuse
  {
  }

  lemma {:induction false} FreeNumbers(c: Class, s: Pool, s': Pool, h: nat)
    requires FreeStep(c, s, s', h)
    ensures var z := ZspageOf(s, h); z in s.zs && s'.zs.Keys == s.zs.Keys && s'.zs[z].inuse + 1 == s.zs[z].inuse
    ensures forall x :: x in s.zs && x != ZspageOf(s, h) ==> s'.zs[x].inuse == s.zs[x].inuse
  {
  }

  lemma {:induction false} AddNumbers(c: Class, s: Pool, s': Pool, z: nat, frames: seq<nat>)
    requires AddStep(c, s, s', z, frames)
    ensures z !in s.zs && s'.zs.Keys == s.zs.Keys + {z} && s'.zs[z].inuse == 0
    ensures forall x :: x in s.zs ==> s'.zs[x].inuse == s.zs[x].inuse
  {
  }

  lemma {:induction false} MallocFits(c: Class, s: Pool, s': Pool, q: Lists, out: set<nat>, z: nat, h: nat)
    requires Fits(c, s, q, out) && MallocStep(c, s, s', z, h) && Inv(c, s') && z !in out && z !in q.inflight
    ensures c.n > 0 && z in s'.zs && z in q.fullness && |q.lists| == GROUPS && |q.stat| == GROUPS
    ensures Group(c, s'.zs[z].inuse) < GROUPS
    ensures q.fullness[z] < GROUPS && q.stat[q.fullness[z]] > 0
    ensures Fits(c, s', Fixed(c, s'.zs, q, z).(used := q.used + 1), out)
  {
    MallocNumbers(c, s, s', z, h);
    FixedFits(c, s, s', q, out, z);
  }

  lemma {:induction false} FreeFits(c: Class, s: Pool, s': Pool, q: Lists, out: set<nat>, h: nat)
    requires Fits(c, s, q, out) && Inv(c, s') && h in s.handles && s.handles[h].frame in s.home
    requires ZspageOf(s, h) in s.zs && ZspageOf(s, h) !in out && ZspageOf(s, h) !in q.inflight
    requires s'.zs.Keys == s.zs.Keys
    requires s'.zs[ZspageOf(s, h)].inuse + 1 == s.zs[ZspageOf(s, h)].inuse
    requires forall x :: x in s.zs && x != ZspageOf(s, h) ==> s'.zs[x].inuse == s.zs[x].inuse
    ensures var z := ZspageOf(s, h);
            && c.n > 0 && z in s'.zs && z in q.fullness && |q.lists| == GROUPS && |q.stat| == GROUPS
                 && Group(c, s'.zs[z].inuse) < GROUPS
            && q.fullness[z] < GROUPS && q.stat[q.fullness[z]] > 0 && q.used > 0
            && Fits(c, s', Fixed(c, s'.zs, q, z).(used := q.used - 1), out)
  {
    var z := ZspageOf(s, h);
    SumPick(s.zs, s.zs.Keys, z);
    FixedFits(c, s, s', q, out, z);
  }

  // ----- a new zspage ---------------------------------------------------------------------------------

  /** The lists and counters after a new zspage with one object has been inserted. */
  function Inserted(c: Class, q: Lists, z: nat): Lists
    requires c.n > 0 && |q.lists| == GROUPS && |q.stat| == GROUPS && Group(c, 1) < GROUPS
  {
    Insert(q, z, Group(c, 1)).(used := q.used + 1, provided := q.provided + c.n, pages := q.pages + c.p)
  }

  lemma {:induction false} InsertedLists(
    c: Class, zs: map<nat, Zspage>, zs1: map<nat, Zspage>, zs2: map<nat, Zspage>, q: Lists, out: set<nat>, z: nat)
    requires c.n > 0 && ListsFit(c, zs, q, out) && z !in zs && z !in out && zs1.Keys == zs.Keys + {z}
    requires zs2.Keys == zs1.Keys
    requires (forall x :: x in zs ==> zs1[x].inuse == zs[x].inuse && zs2[x].inuse == zs[x].inuse) && zs2[z].inuse == 1
    ensures |q.lists| == GROUPS && |q.stat| == GROUPS && Group(c, 1) < GROUPS
    ensures ListsFit(c, zs2, Inserted(c, q, z), out)
  {
    GroupRange(c, 1);
    NewIsOut(c, zs, zs1, q, out, z);
    OutMayChange(c, zs1, zs2, q, out + {z});
    InsertFits(c, zs2, q, out + {z}, z, Group(c, 1));
    assert out + {z} - {z} == out;
    SameLists(c, zs2, Insert(q, z, Group(c, 1)), Inserted(c, q, z), out);
  }

  lemma {:induction false} InsertedSums(c: Class, zs: map<nat, Zspage>, zs2: map<nat, Zspage>, q: Lists, z: nat)
    requires c.n > 0 && |q.lists| == GROUPS && |q.stat| == GROUPS && Group(c, 1) < GROUPS
    requires SumsFit(c, zs, q) && z !in zs && zs2.Keys == zs.Keys + {z} && zs2[z].inuse == 1
    requires forall x :: x in zs ==> zs2[x].inuse == zs[x].inuse
    ensures SumsFit(c, zs2, Inserted(c, q, z))
  {
    TotalAdd(zs, zs2, z);
    SizeOf(zs);
    SizeOf(zs2);
  }

  lemma {:induction false} InsertedFits(c: Class, s: Pool, s1: Pool, s2: Pool, q: Lists, out: set<nat>, z: nat)
    requires Fits(c, s, q, out) && Inv(c, s2) && z !in out && z !in s.zs && c.n > 0
    requires s1.zs.Keys == s.zs.Keys + {z} && s2.zs.Keys == s1.zs.Keys && s2.zs[z].inuse == 1
    requires forall x :: x in s.zs ==> s1.zs[x].inuse == s.zs[x].inuse && s2.zs[x].inuse == s.zs[x].inuse
    ensures c.n > 0 && |q.lists| == GROUPS && |q.stat| == GROUPS && Group(c, 1) < GROUPS
    ensures Fits(c, s2, Inserted(c, q, z), out)
  {
    InsertedLists(c, s.zs, s1.zs, s2.zs, q, out, z);
    InsertedSums(c, s.zs, s2.zs, q, z);
  }

  lemma {:induction false} NewFits(
    c: Class, s: Pool, s1: Pool, s2: Pool, q: Lists, out: set<nat>, z: nat, frames: seq<nat>, h: nat)
    requires Fits(c, s, q, out) && AddStep(c, s, s1, z, frames) && MallocStep(c, s1, s2, z, h) && Inv(c, s2)
    requires z !in out
    ensures c.n > 0 && |q.lists| == GROUPS && |q.stat| == GROUPS && Group(c, 1) < GROUPS
    ensures Fits(c, s2, Inserted(c, q, z), out)
  {
    AddNumbers(c, s, s1, z, frames);
    MallocNumbers(c, s1, s2, z, h);
    InsertedFits(c, s, s1, s2, q, out, z);
  }

  /** Adding a zspage and allocating in it leaves the other handles as they are. */
  lemma {:induction false} OthersAfterAdd(c: Class, s: Pool, s1: Pool, s2: Pool, h: nat)
    requires AllSame(c, s, s1) && OthersSame(c, s1, s2, h) && h !in s.handles
    ensures OthersSame(c, s, s2, h)
  {
    forall h' | h' in s.handles && h' != h
      ensures h' in s2.handles && HandleFits(c, s, h') && HandleFits(c, s2, h')
      ensures PayloadOf(c, s2, h') == PayloadOf(c, s, h')
    {
      assert HandleFits(c, s1, h') && HandleFits(c, s2, h');
    }
  }

  // ----- an empty zspage is freed ---------------------------------------------------------------------

  /** The lists and counters after remove_zspage and __free_zspage. */
  function Dropped(c: Class, q: Lists, z: nat): Lists
    requires z in q.fullness && q.fullness[z] < |q.lists| && q.fullness[z] < |q.stat| && q.stat[q.fullness[z]] > 0
    requires q.provided >= c.n && q.pages >= c.p
  {
    Remove(q, z).(provided := q.provided - c.n, pages := q.pages - c.p)
  }

  lemma {:induction false} DroppedFits(c: Class, s: Pool, s': Pool, q: Lists, out: set<nat>, z: nat)
    requires Fits(c, s, q, out) && RemoveStep(c, s, s', z) && Inv(c, s') && z !in out && z !in q.inflight
    requires s.zs[z].inuse == 0
    ensures z in q.fullness && q.fullness[z] < |q.lists| && q.fullness[z] < |q.stat| && q.stat[q.fullness[z]] > 0
    ensures q.provided >= c.n && q.pages >= c.p
    ensures Fits(c, s', Dropped(c, q, z), out)
  {
    RemoveDefined(c, s.zs, q, out, z);
    RemoveFits(c, s.zs, q, out, z);
    GoneFits(c, s.zs, s'.zs, Remove(q, z), out + {z}, z);
    assert out + {z} - {z} == out;
    ZspageGoes(c, s, s', q, z);
    SameLists(c, s'.zs, Remove(q, z), Dropped(c, q, z), out);
  }

  /** The sums without an empty zspage. */
  lemma {:induction false} ZspageGoes(c: Class, s: Pool, s': Pool, q: Lists, z: nat)
    requires SumsFit(c, s.zs, q) && z in s.zs && s.zs[z].inuse == 0 && s'.zs == s.zs - {z}
    ensures q.provided >= c.n && q.pages >= c.p && Total(s'.zs) == q.used
    ensures q.provided - c.n == Times(c.n, |s'.zs|) && q.pages - c.p == Times(c.p, |s'.zs|)
  {
    TotalRemove(s.zs, z);
  }

  class Allocator {
    const objs: Objects
    var q: Lists
    ghost var out: set<nat>

    ghost predicate Valid()
      reads this, objs
    {
      Fits(objs.c, objs.State(), q, out)
    }

    constructor (c: Class, mem: Memory)
      requires Numbered(c)
      ensures Valid() && out == {} && fresh(objs) && objs.c == c
    {
      objs := new Objects(c, mem);
      q := Lists(seq(GROUPS, _ => []), map[], seq(GROUPS, _ => 0), 0, 0, 0, []);
      out := {};
    }

    /** find_get_zspage: the fullest zspage that is not full. */
    method FindGetZspage() returns (found: bool, z: nat)
      requires Valid()
      ensures found ==>
                && z in objs.zs && z !in out && z !in q.inflight && objs.zs[z].inuse < objs.c.n
                && z in q.fullness && q.fullness[z] < FULL && forall g :: q.fullness[z] < g < FULL ==> q.lists[g] == []
      ensures !found ==> forall x :: x in objs.zs && x !in out && x !in q.inflight ==> objs.zs[x].inuse == objs.c.n
    {
      var g := FULL;
      ghost var c, s := objs.c, objs.State();
      while g > 0
        invariant 0 <= g <= FULL && |q.lists| == GROUPS && forall g' :: g <= g' < FULL ==> q.lists[g'] == []
      {
        g := g - 1;
        if q.lists[g] != [] {
          assert ListedAt(c, s.zs, q, out, g, 0);
          z := q.lists[g][0];
          InuseBound(c, s, z);
          GroupRange(c, s.zs[z].inuse);
          return true, z;
        }
      }
      forall x | x in objs.zs && x !in out && x !in q.inflight
        ensures objs.zs[x].inuse == c.n
      {
        InuseBound(c, s, x);
        OnItsList(c, s.zs, q, out, x);
        GroupRange(c, s.zs[x].inuse);
      }
      return false, 0;
    }

    /** zs_malloc from a zspage with room. */
    method MallocFrom(z: nat, h: nat)
      requires Valid() && z in objs.zs && z !in out && z !in q.inflight && objs.zs[z].inuse < objs.c.n
      requires h !in objs.handles && h % 2 == 0
      modifies this`q, objs
      ensures Valid() && MallocStep(objs.c, old(objs.State()), objs.State(), z, h)
    {
      ghost var s := objs.State();
      objs.Allocate(z, h);
      MallocFits(objs.c, s, objs.State(), q, out, z, h);
      q := Fixed(objs.c, objs.zs, q, z).(used := q.used + 1);
    }

    /** zs_malloc from a new zspage. */
    method MallocNew(z: nat, frames: seq<nat>, h: nat)
      requires Valid() && z !in out && h !in objs.handles && h % 2 == 0
      requires z !in objs.zs && Chain(objs.c, objs.mem, frames)
      requires forall j :: 0 <= j < |frames| ==> frames[j] !in objs.home
      modifies this`q, objs
      ensures Valid() && Allocated(objs.c, old(objs.State()), objs.State(), h)
    {
      ghost var c, s := objs.c, objs.State();
      objs.AddZspage(z, frames);
      ghost var s1 := objs.State();
      objs.Allocate(z, h);
      ghost var s2 := objs.State();
      NewAllocates(c, s, s1, s2, z, frames, h);
      NewFits(c, s, s1, s2, q, out, z, frames, h);
      q := Inserted(objs.c, q, z);
    }

    /** zs_malloc, once it has a handle: from the fullest zspage with room, or from a new one. */
    method Malloc(h: nat, supply: Supply) returns (ok: bool)
      requires Valid() && out == {} && h !in objs.handles && h % 2 == 0
      requires supply.Pages? ==>
                 && supply.z !in objs.zs && Chain(objs.c, objs.mem, supply.frames)
                 && forall j :: 0 <= j < |supply.frames| ==> supply.frames[j] !in objs.home
      modifies this`q, objs
      ensures Valid()
      ensures ok ==> Allocated(objs.c, old(objs.State()), objs.State(), h)
      ensures !ok ==> q == old(q) && objs.State() == old(objs.State()) && supply.NoPages?
      ensures !ok ==> forall x :: x in objs.zs && x !in q.inflight ==> objs.zs[x].inuse == objs.c.n
    {
      var found, z := FindGetZspage();
      if found {
        ghost var s := objs.State();
        MallocFrom(z, h);
        MallocStepKeeps(objs.c, s, objs.State(), z, h);
        return true;
      }
      if supply.NoPages? {
        return false;
      }
      MallocNew(supply.z, supply.frames, h);
      return true;
    }

    /** free_zspage: if the pages cannot be locked, the zspage stays on the list of empty ones for
        the worker. */
    method FreeZspage(z: nat)
      requires Valid() && z in objs.zs && z !in out && z !in q.inflight && objs.zs[z].inuse == 0
      modifies this`q, objs
      ensures Valid() && AllSame(objs.c, old(objs.State()), objs.State())
      ensures objs.State() == old(objs.State()) || (objs.zs == old(objs.zs) - {z} && objs.handles == old(objs.handles))
      ensures q.used == old(q.used)
    {
      ghost var c, s := objs.c, objs.State();
      var locked: bool := *;
      if !locked {
        SameAsItself(c, s);
        return;
      }
      objs.RemoveZspage(z);
      RemoveStepKeeps(c, s, objs.State(), z);
      DroppedFits(c, s, objs.State(), q, out, z);
      q := Dropped(objs.c, q, z);
    }

    /** zs_free */
    method Free(h: nat)
      requires Valid() && out == {} && h in objs.handles
      modifies this`q, objs
      ensures Valid() && Freed(objs.c, old(objs.State()), objs.State(), h)
    {
      ghost var c, s := objs.c, objs.State();
      HandleIsObject(c, s, h);
      NotInFlight(c, s, q, out, ZspageOf(s, h));
      var z := objs.home[objs.handles[h].frame].z;
      objs.Release(h);
      ghost var s1 := objs.State();
      FreeStepKeeps(c, s, s1, h);
      FreeNumbers(c, s, s1, h);
      FreeFits(c, s, s1, q, out, h);
      q := Fixed(objs.c, objs.zs, q, z).(used := q.used - 1);
      if Group(objs.c, objs.zs[z].inuse) == 0 {
        InuseBound(c, s1, z);
        GroupRange(c, s1.zs[z].inuse);
        FreeZspage(z);
        FreedThenSame(c, s, s1, objs.State(), h);
      }
    }
  }

  /** Handle h has been given out, and the others are as before. */
  ghost predicate Allocated(c: Class, s: Pool, s': Pool, h: nat) {
    h !in s.handles && s'.handles.Keys == s.handles.Keys + {h} && OthersSame(c, s, s', h)
  }

  /** Handle h is gone, and the others are as before. */
  ghost predicate Freed(c: Class, s: Pool, s': Pool, h: nat) {
    h in s.handles && s'.handles.Keys == s.handles.Keys - {h} && OthersSame(c, s, s', h)
  }

  lemma {:induction false} NewAllocates(c: Class, s: Pool, s1: Pool, s2: Pool, z: nat, frames: seq<nat>, h: nat)
    requires Inv(c, s) && AddStep(c, s, s1, z, frames) && Inv(c, s1) && MallocStep(c, s1, s2, z, h)
    ensures Allocated(c, s, s2, h)
  {
    AddStepKeeps(c, s, s1, z, frames);
    MallocStepKeeps(c, s1, s2, z, h);
    OthersAfterAdd(c, s, s1, s2, h);
  }

  lemma {:induction false} SameAsItself(c: Class, s: Pool)
    requires Inv(c, s)
    ensures AllSame(c, s, s)
  {
    forall h | h in s.handles
      ensures HandleFits(c, s, h)
    {
    }
  }

  /** A zspage in flight has no objects. */
  lemma {:induction false} NotInFlight(c: Class, s: Pool, q: Lists, out: set<nat>, z: nat)
    requires Fits(c, s, q, out) && z in s.zs && s.zs[z].inuse > 0
    ensures z !in q.inflight
  {
  }

  lemma {:induction false} FreedThenSame(c: Class, s: Pool, s1: Pool, s2: Pool, h: nat)
    requires Freed(c, s, s1, h) && AllSame(c, s1, s2)
    ensures Freed(c, s, s2, h)
  {
    forall h' | h' in s.handles && h' != h
      ensures h' in s2.handles && HandleFits(c, s, h') && HandleFits(c, s2, h')
      ensures PayloadOf(c, s2, h') == PayloadOf(c, s, h')
    {
      assert HandleFits(c, s1, h') && HandleFits(c, s2, h');
    }
  }
}
