/** Compaction and deferred freeing in mm/zsmalloc.c, for one size class. */
module ZsCompact {
  import opened ZsMemory
  import opened ZsZspage
  import opened ZsPool
  import opened ZsMoves
  import opened ZsScan
  import opened ZsClass
  import opened ZsLists
  import opened ZsAllocator

  // ----- isolating ------------------------------------------------------------------------------------

  lemma {:induction false} IsolatedFits(c: Class, s: Pool, q: Lists, out: set<nat>, z: nat)
    requires Fits(c, s, q, out) && z in s.zs && z !in out && z !in q.inflight
    ensures z in q.fullness && q.fullness[z] < |q.lists| && q.fullness[z] < |q.stat| && q.stat[q.fullness[z]] > 0
    ensures Fits(c, s, Remove(q, z), out + {z})
  {
    InuseBound(c, s, z);
    RemoveDefined(c, s.zs, q, out, z);
    RemoveFits(c, s.zs, q, out, z);
  }

  lemma {:induction false} PutBackFits(c: Class, s: Pool, q: Lists, out: set<nat>, z: nat)
    requires Fits(c, s, q, out) && z in s.zs && z in out
    ensures c.n > 0 && |q.lists| == GROUPS && |q.stat| == GROUPS && Group(c, s.zs[z].inuse) < GROUPS
    ensures Fits(c, s, Insert(q, z, Group(c, s.zs[z].inuse)), out - {z})
  {
    InuseBound(c, s, z);
    GroupRange(c, s.zs[z].inuse);
    InsertFits(c, s.zs, q, out, z, Group(c, s.zs[z].inuse));
  }

  /** A zspage that is neither empty nor full. */
  predicate IsPartial(c: Class, zs: map<nat, Zspage>, z: nat) {
    z in zs && 0 < zs[z].inuse < c.n
  }

  function Partial(c: Class, zs: map<nat, Zspage>): set<nat> {
    set z | z in zs && IsPartial(c, zs, z)
  }

  lemma {:induction false} ListedIsPartial(c: Class, s: Pool, q: Lists, out: set<nat>, g: nat)
    requires Fits(c, s, q, out) && 0 < g < FULL && q.lists[g] != []
    ensures var z := q.lists[g][0];
            IsPartial(c, s.zs, z) && z !in out && z !in q.inflight && OnTop(q, z) && q.fullness[z] == g
  {
    assert ListedAt(c, s.zs, q, out, g, 0);
    InuseBound(c, s, q.lists[g][0]);
    GroupRange(c, s.zs[q.lists[g][0]].inuse);
  }

  lemma {:induction false} PartialIsListed(c: Class, s: Pool, q: Lists, out: set<nat>, z: nat)
    requires Fits(c, s, q, out) && IsPartial(c, s.zs, z) && z !in out
    ensures z in q.fullness && 0 < q.fullness[z] < FULL && q.lists[q.fullness[z]] != []
  {
    NotInFlight(c, s, q, out, z);
    OnItsList(c, s.zs, q, out, z);
    GroupRange(c, s.zs[z].inuse);
  }

  lemma {:induction false} AllPartialOut(c: Class, s: Pool, q: Lists, out: set<nat>)
    requires Fits(c, s, q, out) && forall g :: 0 < g < FULL ==> q.lists[g] == []
    ensures Partial(c, s.zs) <= out
  {
    forall z | z in Partial(c, s.zs)
      ensures z in out
    {
      if z !in out {
        PartialIsListed(c, s, q, out, z);
      }
    }
  }

  // ----- progress ---------------------------------------------------------------------------------------

  /** Emptying one of two partial zspages, or filling the other, leaves fewer partial ones. */
  lemma {:induction false} PartialFalls(c: Class, s: Pool, s': Pool, src: nat, dst: nat)
    requires Migrated(c, s, s', src, dst) && src != dst && IsPartial(c, s.zs, src) && IsPartial(c, s.zs, dst)
    requires s'.zs[src].inuse == 0 || s'.zs[dst].inuse == c.n
    ensures Partial(c, s'.zs) < Partial(c, s.zs) && |Partial(c, s'.zs)| < |Partial(c, s.zs)|
  {
    var p, p' := Partial(c, s.zs), Partial(c, s'.zs);
    forall z | z in p'
      ensures z in p
    {
      assert IsPartial(c, s'.zs, z);
      assert z == src || z == dst || s'.zs[z] == s.zs[z];
    }
    var gone := if s'.zs[src].inuse == 0 then src else dst;
    assert gone in p && gone !in p';
    assert p' <= p - {gone};
    SubsetSize(p', p - {gone});
  }

  lemma {:induction false} MigratedFits(c: Class, s: Pool, s': Pool, q: Lists, out: set<nat>, src: nat, dst: nat)
    requires Fits(c, s, q, out) && Inv(c, s') && Migrated(c, s, s', src, dst) && src != dst && src in out && dst in out
    ensures Fits(c, s', q, out)
  {
    InuseBound(c, s, src);
    OutMayChange(c, s.zs, s'.zs, q, out);
    MigratedTotal(c, s, s', src, dst);
    SizeOf(s.zs);
    SizeOf(s'.zs);
  }

  /** Zspages with objects in use. */
  function Busy(zs: map<nat, Zspage>): set<nat> {
    set z | z in zs && zs[z].inuse > 0
  }

  lemma {:induction false} BusyAfter(c: Class, s: Pool, s': Pool, src: nat, dst: nat)
    requires Migrated(c, s, s', src, dst) && src != dst && s.zs[src].inuse > 0 && s.zs[dst].inuse > 0
    requires s'.zs[dst].inuse > 0
    ensures Busy(s'.zs) == if s'.zs[src].inuse == 0 then Busy(s.zs) - {src} else Busy(s.zs)
    ensures Times(c.p, |Busy(s.zs)|) == Times(c.p, |Busy(s'.zs)|) + if s'.zs[src].inuse == 0 then c.p else 0
  {
    var b, b' := Busy(s.zs), Busy(s'.zs);
    forall z | z in s.zs
      ensures z in b' <==> z in b && (z == src ==> s'.zs[src].inuse > 0)
    {
      assert z == src || z == dst || s'.zs[z] == s.zs[z];
    }
    assert src in b;
    assert s'.zs[src].inuse == 0 ==> b' == b - {src};
    assert s'.zs[src].inuse > 0 ==> b' == b;
  }

  /** The number of objects in use stays the same. */
  lemma {:induction false} MigratedTotal(c: Class, s: Pool, s': Pool, src: nat, dst: nat)
    requires Migrated(c, s, s', src, dst) && src != dst
    ensures Total(s'.zs) == Total(s.zs)
  {
    var ids := s.zs.Keys;
    SumPick(s.zs, ids, src);
    SumPick(s.zs, ids - {src}, dst);
    SumPick(s'.zs, ids, src);
    SumPick(s'.zs, ids - {src}, dst);
    SumSame(s.zs, s'.zs, ids - {src} - {dst});
  }

  /** zs_can_compact: the pages of as many zspages as the unused objects would fill. */
  function CanCompact(c: Class, q: Lists): nat
    requires c.n > 0
  {
    if q.provided <= q.used then 0 else Times(c.p, (q.provided - q.used) / c.n)
  }

  datatype Maybe = Nothing | Just(z: nat)

  // ----- the steps ----------------------------------------------------------------------------------------

  method Isolate(al: Allocator, z: nat)
    requires al.Valid() && z in al.objs.zs && z !in al.out && z !in al.q.inflight
    modifies al`q, al`out
    ensures al.Valid() && al.out == old(al.out) + {z}
  {
    IsolatedFits(al.objs.c, al.objs.State(), al.q, al.out, z);
    al.q := Remove(al.q, z);
    al.out := al.out + {z};
  }

  /** putback_zspage */
  method PutBack(al: Allocator, z: nat) returns (g: nat)
    requires al.Valid() && z in al.objs.zs && z in al.out
    modifies al`q, al`out
    ensures al.Valid() && al.out == old(al.out) - {z} && g == Group(al.objs.c, al.objs.zs[z].inuse)
    ensures al.q.inflight == old(al.q.inflight)
  {
    PutBackFits(al.objs.c, al.objs.State(), al.q, al.out, z);
    g := Group(al.objs.c, al.objs.zs[z].inuse);
    al.q := Insert(al.q, z, g);
    al.out := al.out - {z};
  }

  /** Zspage z is the first on its list. */
  predicate OnTop(q: Lists, z: nat) {
    && |q.lists| == GROUPS && z in q.fullness && q.fullness[z] < GROUPS
    && q.lists[q.fullness[z]] != [] && q.lists[q.fullness[z]][0] == z
  }

  /** isolate_dst_zspage: from the fullest group down. */
  method IsolateDst(al: Allocator) returns (r: Maybe)
    requires al.Valid()
    modifies al`q, al`out
    ensures al.Valid()
    ensures r.Just? ==> IsPartial(al.objs.c, al.objs.zs, r.z) && r.z !in old(al.out) && al.out == old(al.out) + {r.z}
    ensures r.Just? ==>
              OnTop(old(al.q), r.z) && forall g :: old(al.q).fullness[r.z] < g < FULL ==> old(al.q).lists[g] == []
    ensures r.Nothing? ==> al.q == old(al.q) && al.out == old(al.out) && Partial(al.objs.c, al.objs.zs) <= al.out
  {
    var g := FULL - 1;
    while g > 0
      invariant 0 <= g < FULL && forall g' :: g < g' < FULL ==> al.q.lists[g'] == []
    {
      if al.q.lists[g] != [] {
        ListedIsPartial(al.objs.c, al.objs.State(), al.q, al.out, g);
        var z := al.q.lists[g][0];
        Isolate(al, z);
        return Just(z);
      }
      g := g - 1;
    }
    AllPartialOut(al.objs.c, al.objs.State(), al.q, al.out);
    return Nothing;
  }

  /** isolate_src_zspage: from the emptiest group up. */
  method IsolateSrc(al: Allocator) returns (r: Maybe)
    requires al.Valid()
    modifies al`q, al`out
    ensures al.Valid()
    ensures r.Just? ==> IsPartial(al.objs.c, al.objs.zs, r.z) && r.z !in old(al.out) && al.out == old(al.out) + {r.z}
    ensures r.Just? ==>
              OnTop(old(al.q), r.z) && forall g :: 0 < g < old(al.q).fullness[r.z] ==> old(al.q).lists[g] == []
    ensures r.Nothing? ==> al.q == old(al.q) && al.out == old(al.out) && Partial(al.objs.c, al.objs.zs) <= al.out
  {
    var g := 1;
    while g < FULL
      invariant 1 <= g <= FULL && forall g' :: 0 < g' < g ==> al.q.lists[g'] == []
    {
      if al.q.lists[g] != [] {
        ListedIsPartial(al.objs.c, al.objs.State(), al.q, al.out, g);
        var z := al.q.lists[g][0];
        Isolate(al, z);
        return Just(z);
      }
      g := g + 1;
    }
    AllPartialOut(al.objs.c, al.objs.State(), al.q, al.out);
    return Nothing;
  }

  /** migrate_zspage between two isolated zspages. */
  method MigrateIsolated(al: Allocator, src: nat, dst: nat)
    requires al.Valid() && src != dst && src in al.out && dst in al.out
    requires IsPartial(al.objs.c, al.objs.zs, src) && IsPartial(al.objs.c, al.objs.zs, dst)
    modifies al.objs
    ensures al.Valid() && AllSame(al.objs.c, old(al.objs.State()), al.objs.State())
    ensures src in al.objs.zs && dst in al.objs.zs && al.objs.zs[dst].inuse > 0
    ensures |Partial(al.objs.c, al.objs.zs)| < |Partial(al.objs.c, old(al.objs.zs))|
    ensures al.objs.zs[src].inuse == 0 || al.objs.zs[dst].inuse == al.objs.c.n
    ensures Times(al.objs.c.p, |Busy(old(al.objs.zs))|) ==
            Times(al.objs.c.p, |Busy(al.objs.zs)|) + if al.objs.zs[src].inuse == 0 then al.objs.c.p else 0
  {
    ghost var c, s := al.objs.c, al.objs.State();
    al.objs.MigrateZspage(src, dst);
    ghost var s' := al.objs.State();
    PartialFalls(c, s, s', src, dst);
    MigratedFits(c, s, s', al.q, al.out, src, dst);
    InuseBound(c, s', src);
    InuseBound(c, s, src);
    BusyAfter(c, s, s', src, dst);
  }

  /** The isolated zspages are the destination, if there is one, and it is partial. */
  ghost predicate Between(al: Allocator, s0: Pool, dst: Maybe)
    reads al, al.objs
  {
    && al.Valid() && AllSame(al.objs.c, s0, al.objs.State())
    && (dst.Nothing? ==> al.out == {}) && (dst.Just? ==> al.out == {dst.z} && IsPartial(al.objs.c, al.objs.zs, dst.z))
  }

  lemma {:induction false} NotPartialGoes(c: Class, zs: map<nat, Zspage>, zs': map<nat, Zspage>, z: nat)
    requires z in zs && zs[z].inuse == 0 && (zs' == zs || zs' == zs - {z})
    ensures Partial(c, zs') == Partial(c, zs) && Busy(zs') == Busy(zs)
  {
    forall x | x in Partial(c, zs)
      ensures x in Partial(c, zs')
    {
      assert x != z && IsPartial(c, zs, x) && IsPartial(c, zs', x);
    }
    forall x | x in Partial(c, zs')
      ensures x in Partial(c, zs)
    {
      assert IsPartial(c, zs', x) && IsPartial(c, zs, x);
    }
  }

  /** The source goes back to the lists, or is freed if nothing is left in it. */
  method SettleSrc(al: Allocator, src: nat, dst: nat, ghost s0: Pool) returns (freed: nat)
    requires al.Valid() && al.out == {dst, src} && src != dst && src in al.objs.zs && dst in al.objs.zs
    requires al.objs.zs[dst].inuse > 0 && AllSame(al.objs.c, s0, al.objs.State())
    modifies al, al.objs
    ensures al.Valid() && al.out == {dst} && AllSame(al.objs.c, s0, al.objs.State())
    ensures dst in al.objs.zs && al.objs.zs[dst] == old(al.objs.zs[dst])
    ensures Partial(al.objs.c, al.objs.zs) == Partial(al.objs.c, old(al.objs.zs))
    ensures Busy(al.objs.zs) == Busy(old(al.objs.zs))
    ensures freed == if old(al.objs.zs[src].inuse) == 0 then al.objs.c.p else 0
  {
    ghost var c, s := al.objs.c, al.objs.State();
    InuseBound(c, s, src);
    GroupRange(c, s.zs[src].inuse);
    var g := PutBack(al, src);
    freed := 0;
    if g == 0 {
      al.FreeZspage(src);
      AllSameTrans(c, s0, s, al.objs.State());
      NotPartialGoes(c, s.zs, al.objs.zs, src);
      freed := al.objs.c.p;
    }
  }

  /** One round of the loop in __zs_compact, from migrate_zspage on. */
  method CompactRound(al: Allocator, src: nat, dst: nat, ghost s0: Pool) returns (dst': Maybe, freed: nat)
    requires al.Valid() && al.out == {dst, src} && src != dst && AllSame(al.objs.c, s0, al.objs.State())
    requires IsPartial(al.objs.c, al.objs.zs, src) && IsPartial(al.objs.c, al.objs.zs, dst)
    modifies al, al.objs
    ensures Between(al, s0, dst') && |Partial(al.objs.c, al.objs.zs)| < |Partial(al.objs.c, old(al.objs.zs))|
    ensures Times(al.objs.c.p, |Busy(old(al.objs.zs))|) == Times(al.objs.c.p, |Busy(al.objs.zs)|) + freed
  {
    ghost var c, s := al.objs.c, al.objs.State();
    MigrateIsolated(al, src, dst);
    AllSameTrans(c, s0, s, al.objs.State());
    freed := SettleSrc(al, src, dst, s0);
    InuseBound(c, al.objs.State(), dst);
    GroupRange(c, al.objs.zs[dst].inuse);
    var contended: bool := *;
    dst' := Just(dst);
    if Group(al.objs.c, al.objs.zs[dst].inuse) == FULL || contended {
      var _ := PutBack(al, dst);
      dst' := Nothing;
    }
  }

  /** At most one zspage is partial. */
  ghost predicate AtMostOnePartial(al: Allocator)
    reads al, al.objs
  {
    |Partial(al.objs.c, al.objs.zs)| <= 1
  }

  /** A destination, the one in use or a new one. */
  method EnsureDst(al: Allocator, dst: Maybe, ghost s0: Pool) returns (dst': Maybe)
    requires Between(al, s0, dst)
    modifies al`q, al`out
    ensures Between(al, s0, dst')
    ensures dst'.Nothing? ==> AtMostOnePartial(al)
  {
    dst' := dst;
    if dst.Nothing? {
      dst' := IsolateDst(al);
      if dst'.Nothing? {
        SubsetSize(Partial(al.objs.c, al.objs.zs), {});
      }
    }
  }

  /** One round of the loop in __zs_compact; it stops when there are no two partial zspages. */
  method CompactStep(al: Allocator, dst: Maybe, ghost s0: Pool) returns (stop: bool, dst': Maybe, freed: nat)
    requires Between(al, s0, dst)
    modifies al, al.objs
    ensures Between(al, s0, dst')
    ensures stop ==> AtMostOnePartial(al)
    ensures !stop ==> |Partial(al.objs.c, al.objs.zs)| < |Partial(al.objs.c, old(al.objs.zs))|
    ensures Times(al.objs.c.p, |Busy(old(al.objs.zs))|) == Times(al.objs.c.p, |Busy(al.objs.zs)|) + freed
  {
    freed := 0;
    dst' := EnsureDst(al, dst, s0);
    if dst'.Nothing? {
      return true, dst', 0;
    }
    var src := IsolateSrc(al);
    if src.Nothing? {
      SubsetSize(Partial(al.objs.c, al.objs.zs), {dst'.z});
      return true, dst', 0;
    }
    assert al.out == {dst'.z, src.z};
    dst', freed := CompactRound(al, src.z, dst'.z, s0);
    stop := false;
  }

  /** __zs_compact: it ends, no handle notices, and afterwards either the unused objects would not
      fill a zspage or at most one zspage is partial.  The result counts the pages of the zspages
      that were emptied, whether or not their pages could be given back at once. */
  method Compact(al: Allocator) returns (freed: nat)
    requires al.Valid() && al.out == {} && al.objs.c.n > 0
    modifies al, al.objs
    ensures al.Valid() && al.out == {} && AllSame(al.objs.c, old(al.objs.State()), al.objs.State())
    ensures CanCompact(al.objs.c, al.q) == 0 || AtMostOnePartial(al)
    ensures Times(al.objs.c.p, |Busy(old(al.objs.zs))|) == Times(al.objs.c.p, |Busy(al.objs.zs)|) + freed
  {
    ghost var s0 := al.objs.State();
    SameAsItself(al.objs.c, s0);
    var dst, stop := Nothing, false;
    freed := 0;
    while !stop && CanCompact(al.objs.c, al.q) > 0
      invariant Between(al, s0, dst) && (stop ==> AtMostOnePartial(al))
      invariant Times(al.objs.c.p, |Busy(s0.zs)|) == Times(al.objs.c.p, |Busy(al.objs.zs)|) + freed
      decreases !stop, |Partial(al.objs.c, al.objs.zs)|
    {
      var more;
      stop, dst, more := CompactStep(al, dst, s0);
      freed := freed + more;
    }
    if dst.Just? {
      var _ := PutBack(al, dst.z);
    }
  }

  // ----- deferred freeing -------------------------------------------------------------------------------

  /** The lists and counters after the worker has freed the first zspage in flight. */
  function Cleared(c: Class, q: Lists): Lists
    requires q.inflight != [] && |q.stat| == GROUPS && q.stat[0] > 0 && q.provided >= c.n && q.pages >= c.p
  {
    Arrived(q).(provided := q.provided - c.n, pages := q.pages - c.p)
  }

  lemma {:induction false} ClearedFits(c: Class, s: Pool, s': Pool, q: Lists, out: set<nat>)
    requires Fits(c, s, q, out) && q.inflight != [] && RemoveStep(c, s, s', q.inflight[0]) && Inv(c, s')
    ensures |q.stat| == GROUPS && q.stat[0] > 0 && q.provided >= c.n && q.pages >= c.p
    ensures Fits(c, s', Cleared(c, q), out)
  {
    LandFits(c, s.zs, s'.zs, q, out);
    ZspageGoes(c, s, s', q, q.inflight[0]);
    SameLists(c, s'.zs, Arrived(q), Cleared(c, q), out);
  }

  /** One round of the worker: the pages of a zspage taken off the list are given back. */
  method FreeTaken(al: Allocator)
    requires al.Valid() && al.q.inflight != []
    modifies al`q, al.objs
    ensures al.Valid() && AllSame(al.objs.c, old(al.objs.State()), al.objs.State())
    ensures al.q.inflight == old(al.q.inflight)[1..] && al.q.lists == old(al.q.lists)
  {
    ghost var c, s := al.objs.c, al.objs.State();
    al.objs.RemoveZspage(al.q.inflight[0]);
    RemoveStepKeeps(c, s, al.objs.State(), al.q.inflight[0]);
    ClearedFits(c, s, al.objs.State(), al.q, al.out);
    al.q := Cleared(al.objs.c, al.q);
  }

  /** async_free_zspage: the empty zspages that could not be freed at once are freed. */
  method AsyncFree(al: Allocator)
    requires al.Valid() && al.out == {} && al.objs.c.n > 0
    modifies al`q, al.objs
    ensures al.Valid() && AllSame(al.objs.c, old(al.objs.State()), al.objs.State())
    ensures al.q.inflight == [] && forall z :: z in al.objs.zs ==> al.objs.zs[z].inuse > 0
  {
    ghost var c, s0 := al.objs.c, al.objs.State();
    SameAsItself(c, s0);
    SpliceFits(c, s0.zs, al.q, al.out);
    al.q := Spliced(al.q);
    while al.q.inflight != []
      invariant al.Valid() && AllSame(c, s0, al.objs.State()) && |al.q.lists| == GROUPS && al.q.lists[0] == []
      decreases |al.q.inflight|
    {
      ghost var s := al.objs.State();
      FreeTaken(al);
      AllSameTrans(c, s0, s, al.objs.State());
    }
    forall z | z in al.objs.zs
      ensures al.objs.zs[z].inuse > 0
    {
      OnItsList(c, al.objs.zs, al.q, al.out, z);
    }
  }
}
