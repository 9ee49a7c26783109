/** The fullness lists and counters of a size class in mm/zsmalloc.c. */
module ZsLists {
  import opened Arith
  import opened ZsMemory
  import opened ZsZspage

  /** NR_FULLNESS_GROUPS; group 0 is empty, group 11 is full. */
  const GROUPS := 12
  const FULL := 11

  /** get_fullness_group */
  function Group(c: Class, inuse: nat): (g: nat)
    requires c.n > 0
  {
    if inuse == 0 then 0
    else if inuse == c.n then FULL
    else 100 * inuse / c.n / 10 + 1
  }

  lemma {:induction false} GroupRange(c: Class, inuse: nat)
    requires c.n > 0 && inuse <= c.n
    ensures Group(c, inuse) < GROUPS
    ensures Group(c, inuse) == 0 <==> inuse == 0
    ensures Group(c, inuse) == FULL <==> inuse == c.n
  {
    if 0 < inuse < c.n {
      assert 100 * inuse < 100 * c.n;
      DivBound(100 * inuse, c.n, 100);
    }
  }

  /** The lists and counters: per group the zspages in order, for each zspage its group as recorded,
      the number per group (stats.objs), objects allocated and in use, pages held, and the zspages
      that async_free_zspage has taken off the lists and not freed yet. */
  datatype Lists = Lists(
    lists: seq<seq<nat>>,
    fullness: map<nat, nat>,
    stat: seq<nat>,
    provided: nat,
    used: nat,
    pages: nat,
    inflight: seq<nat>)

  predicate NoDup(s: seq<nat>) {
    forall i, j :: 0 <= i < j < |s| ==> s[i] != s[j]
  }

  // ----- taking an element off a list ---------------------------------------------------------------

  /** list_del */
  function Without(s: seq<nat>, z: nat): seq<nat> {
    if s == [] then [] else if s[0] == z then s[1..] else [s[0]] + Without(s[1..], z)
  }

  lemma {:induction false} WithoutHas(s: seq<nat>, z: nat, x: nat)
    requires NoDup(s)
    ensures x in Without(s, z) <==> x in s && x != z
    decreases |s|
  {
    if s != [] {
      assert s == [s[0]] + s[1..];
      if s[0] != z {
        WithoutHas(s[1..], z, x);
      } else {
        assert z !in s[1..];
      }
    }
  }

  lemma {:induction false} WithoutSize(s: seq<nat>, z: nat)
    requires NoDup(s)
    ensures NoDup(Without(s, z)) && |Without(s, z)| == if z in s then |s| - 1 else |s|
    decreases |s|
  {
    if s != [] {
      assert s == [s[0]] + s[1..];
      if s[0] != z {
        WithoutSize(s[1..], z);
        WithoutHas(s[1..], z, s[0]);
      }
    }
  }

  // ----- the lists -----------------------------------------------------------------------------------

  /** Position k of list g holds a zspage of that group that is not isolated. */
  predicate ListedAt(c: Class, zs: map<nat, Zspage>, q: Lists, out: set<nat>, g: nat, k: nat) {
    && g < |q.lists| && k < |q.lists[g]| && c.n > 0
    && var z := q.lists[g][k];
       z in zs && z !in out && z !in q.inflight && z in q.fullness && q.fullness[z] == g && Group(c, zs[z].inuse) == g
  }

  /** A zspage is isolated, on its way to being freed, or on the list of its group. */
  predicate Filed(c: Class, zs: map<nat, Zspage>, q: Lists, out: set<nat>, z: nat) {
    z in out || z in q.inflight || (z in q.fullness && q.fullness[z] < |q.lists| && z in q.lists[q.fullness[z]])
  }

  predicate CountFits(q: Lists, g: nat) {
    && g < |q.lists| && g < |q.stat| && NoDup(q.lists[g])
    && q.stat[g] == |q.lists[g]| + if g == 0 then |q.inflight| else 0
  }

  ghost predicate ListsFit(c: Class, zs: map<nat, Zspage>, q: Lists, out: set<nat>) {
    && |q.lists| == GROUPS && |q.stat| == GROUPS && NoDup(q.inflight)
    && (forall g {:trigger CountFits(q, g)} :: 0 <= g < GROUPS ==> CountFits(q, g))
    && (forall g, k {:trigger ListedAt(c, zs, q, out, g, k)} ::
          0 <= g < GROUPS && 0 <= k < |q.lists[g]| ==> ListedAt(c, zs, q, out, g, k))
    && (forall z {:trigger Filed(c, zs, q, out, z)} :: z in zs ==> Filed(c, zs, q, out, z))
    && (forall i :: 0 <= i < |q.inflight| ==>
         q.inflight[i] in zs && q.inflight[i] !in out && zs[q.inflight[i]].inuse == 0)
  }

  /** A zspage that is neither isolated nor in flight is on the list of its group. */
  lemma {:induction false} OnItsList(c: Class, zs: map<nat, Zspage>, q: Lists, out: set<nat>, z: nat)
    requires c.n > 0 && ListsFit(c, zs, q, out) && z in zs && z !in out && z !in q.inflight
    ensures z in q.fullness && q.fullness[z] < GROUPS && z in q.lists[q.fullness[z]]
    ensures q.fullness[z] == Group(c, zs[z].inuse)
  {
    assert Filed(c, zs, q, out, z);
    var g := q.fullness[z];
    var k :| 0 <= k < |q.lists[g]| && q.lists[g][k] == z;
    assert ListedAt(c, zs, q, out, g, k);
  }

  /** remove_zspage */
  function Remove(q: Lists, z: nat): Lists
    requires z in q.fullness && q.fullness[z] < |q.lists| && q.fullness[z] < |q.stat| && q.stat[q.fullness[z]] > 0
  {
    var g := q.fullness[z];
    q.(lists := q.lists[g := Without(q.lists[g], z)], stat := q.stat[g := q.stat[g] - 1])
  }

  /** insert_zspage */
  function Insert(q: Lists, z: nat, g: nat): Lists
    requires g < |q.lists| && g < |q.stat|
  {
    q.(lists := q.lists[g := [z] + q.lists[g]], stat := q.stat[g := q.stat[g] + 1], fullness := q.fullness[z := g])
  }

  /** A zspage can be taken off its list. */
  ghost predicate CanRemove(c: Class, zs: map<nat, Zspage>, q: Lists, out: set<nat>, z: nat) {
    && c.n > 0 && ListsFit(c, zs, q, out) && z in zs && z !in out && z !in q.inflight
  }

  lemma {:induction false} RemoveDefined(c: Class, zs: map<nat, Zspage>, q: Lists, out: set<nat>, z: nat)
    requires CanRemove(c, zs, q, out, z)
    ensures z in q.fullness && q.fullness[z] < |q.lists| && q.fullness[z] < |q.stat| && q.stat[q.fullness[z]] > 0
    ensures q.fullness[z] == Group(c, zs[z].inuse)
  {
    OnItsList(c, zs, q, out, z);
    assert CountFits(q, q.fullness[z]);
  }

  lemma {:induction false} RemoveCount(c: Class, zs: map<nat, Zspage>, q: Lists, out: set<nat>, z: nat, g: nat)
    requires CanRemove(c, zs, q, out, z) && g < GROUPS
    requires z in q.fullness && q.fullness[z] < |q.lists| && q.fullness[z] < |q.stat| && q.stat[q.fullness[z]] > 0
    ensures CountFits(Remove(q, z), g)
  {
    OnItsList(c, zs, q, out, z);
    assert CountFits(q, g) && CountFits(q, q.fullness[z]);
    WithoutSize(q.lists[q.fullness[z]], z);
  }

  lemma {:induction false} RemoveListed(c: Class, zs: map<nat, Zspage>, q: Lists, out: set<nat>, z: nat, g: nat, k: nat)
    requires CanRemove(c, zs, q, out, z) && g < GROUPS
    requires z in q.fullness && q.fullness[z] < |q.lists| && q.fullness[z] < |q.stat| && q.stat[q.fullness[z]] > 0
    requires k < |Remove(q, z).lists[g]|
    ensures ListedAt(c, zs, Remove(q, z), out + {z}, g, k)
  {
    var x := Remove(q, z).lists[g][k];
    assert x in Remove(q, z).lists[g] && CountFits(q, g);
    if g == q.fullness[z] {
      WithoutHas(q.lists[g], z, x);
    }
    var k' :| 0 <= k' < |q.lists[g]| && q.lists[g][k'] == x;
    assert ListedAt(c, zs, q, out, g, k');
  }

  lemma {:induction false} RemoveFiled(c: Class, zs: map<nat, Zspage>, q: Lists, out: set<nat>, z: nat, x: nat)
    requires CanRemove(c, zs, q, out, z) && x in zs
    requires z in q.fullness && q.fullness[z] < |q.lists| && q.fullness[z] < |q.stat| && q.stat[q.fullness[z]] > 0
    ensures Filed(c, zs, Remove(q, z), out + {z}, x)
  {
    assert Filed(c, zs, q, out, x);
    if x != z && x !in out && x !in q.inflight && q.fullness[x] == q.fullness[z] {
      assert CountFits(q, q.fullness[z]);
      WithoutHas(q.lists[q.fullness[z]], z, x);
    }
  }

  /** Isolating a zspage. */
  lemma {:induction false} RemoveFits(c: Class, zs: map<nat, Zspage>, q: Lists, out: set<nat>, z: nat)
    requires CanRemove(c, zs, q, out, z)
    requires z in q.fullness && q.fullness[z] < |q.lists| && q.fullness[z] < |q.stat| && q.stat[q.fullness[z]] > 0
    ensures ListsFit(c, zs, Remove(q, z), out + {z})
  {
    var q' := Remove(q, z);
    forall g | 0 <= g < GROUPS
      ensures CountFits(q', g)
    {
      RemoveCount(c, zs, q, out, z, g);
    }
    forall g, k | 0 <= g < GROUPS && 0 <= k < |q'.lists[g]|
      ensures ListedAt(c, zs, q', out + {z}, g, k)
    {
      RemoveListed(c, zs, q, out, z, g, k);
    }
    forall x | x in zs
      ensures Filed(c, zs, q', out + {z}, x)
    {
      RemoveFiled(c, zs, q, out, z, x);
    }
  }

  /** An isolated zspage can go to the list of its group. */
  ghost predicate CanInsert(c: Class, zs: map<nat, Zspage>, q: Lists, out: set<nat>, z: nat, g: nat) {
    && c.n > 0 && ListsFit(c, zs, q, out) && z in zs && z in out && g < GROUPS && g == Group(c, zs[z].inuse)
  }

  lemma {:induction false} InsertCount(c: Class, zs: map<nat, Zspage>, q: Lists, out: set<nat>, z: nat, g: nat, g': nat)
    requires CanInsert(c, zs, q, out, z, g) && g' < GROUPS
    ensures CountFits(Insert(q, z, g), g')
  {
    assert CountFits(q, g');
    if g' == g {
      forall k | 0 <= k < |q.lists[g]|
        ensures q.lists[g][k] != z
      {
        assert ListedAt(c, zs, q, out, g, k);
      }
    }
  }

  lemma {:induction false} InsertListed(
    c: Class, zs: map<nat, Zspage>, q: Lists, out: set<nat>, z: nat, g: nat, g': nat, k: nat)
    requires CanInsert(c, zs, q, out, z, g) && g' < GROUPS && k < |Insert(q, z, g).lists[g']|
    ensures ListedAt(c, zs, Insert(q, z, g), out - {z}, g', k)
  {
    if g' == g && k > 0 {
      assert ListedAt(c, zs, q, out, g, k - 1);
    } else if g' != g {
      assert ListedAt(c, zs, q, out, g', k);
    } else {
      forall i | 0 <= i < |q.inflight|
        ensures q.inflight[i] != z
      {
      }
    }
  }

  lemma {:induction false} InsertFiled(c: Class, zs: map<nat, Zspage>, q: Lists, out: set<nat>, z: nat, g: nat, x: nat)
    requires CanInsert(c, zs, q, out, z, g) && x in zs
    ensures Filed(c, zs, Insert(q, z, g), out - {z}, x)
  {
    assert Filed(c, zs, q, out, x);
  }

  /** putback_zspage, and the insertion of a new zspage */
  lemma {:induction false} InsertFits(c: Class, zs: map<nat, Zspage>, q: Lists, out: set<nat>, z: nat, g: nat)
    requires CanInsert(c, zs, q, out, z, g)
    ensures ListsFit(c, zs, Insert(q, z, g), out - {z})
  {
    var q' := Insert(q, z, g);
    forall g' | 0 <= g' < GROUPS
      ensures CountFits(q', g')
    {
      InsertCount(c, zs, q, out, z, g, g');
    }
    forall g', k | 0 <= g' < GROUPS && 0 <= k < |q'.lists[g']|
      ensures ListedAt(c, zs, q', out - {z}, g', k)
    {
      InsertListed(c, zs, q, out, z, g, g', k);
    }
    forall x | x in zs
      ensures Filed(c, zs, q', out - {z}, x)
    {
      InsertFiled(c, zs, q, out, z, g, x);
    }
  }

  /** Isolated zspages may change. */
  lemma {:induction false} OutMayChange(c: Class, zs: map<nat, Zspage>, zs': map<nat, Zspage>, q: Lists, out: set<nat>)
    requires c.n > 0 && ListsFit(c, zs, q, out) && zs'.Keys == zs.Keys
    requires forall z :: z in zs && z !in out ==> zs'[z].inuse == zs[z].inuse
    ensures ListsFit(c, zs', q, out)
  {
    forall g, k | 0 <= g < GROUPS && 0 <= k < |q.lists[g]|
      ensures ListedAt(c, zs', q, out, g, k)
    {
      assert ListedAt(c, zs, q, out, g, k);
    }
    forall z | z in zs'
      ensures Filed(c, zs', q, out, z)
    {
      assert Filed(c, zs, q, out, z);
    }
  }

  // ----- the counters ----------------------------------------------------------------------------------

  /** Objects in use in these zspages. */
  ghost function SumOf(zs: map<nat, Zspage>, ids: set<nat>): nat
    requires ids <= zs.Keys
    decreases |ids|
  {
    if ids == {} then 0 else var x :| x in ids; zs[x].inuse + SumOf(zs, ids - {x})
  }

  lemma {:induction false} SumPick(zs: map<nat, Zspage>, ids: set<nat>, x: nat)
    requires ids <= zs.Keys && x in ids
    ensures SumOf(zs, ids) == zs[x].inuse + SumOf(zs, ids - {x})
    decreases |ids|
  {
    var y :| y in ids && SumOf(zs, ids) == zs[y].inuse + SumOf(zs, ids - {y});
    if y != x {
      SumPick(zs, ids - {y}, x);
      SumPick(zs, ids - {x}, y);
      assert ids - {y} - {x} == ids - {x} - {y};
    }
  }

  lemma {:induction false} SumSame(zs: map<nat, Zspage>, zs': map<nat, Zspage>, ids: set<nat>)
    requires ids <= zs.Keys && ids <= zs'.Keys && forall z :: z in ids ==> zs'[z].inuse == zs[z].inuse
    ensures SumOf(zs', ids) == SumOf(zs, ids)
    decreases |ids|
  {
    if ids != {} {
      var x :| x in ids;
      SumPick(zs, ids, x);
      SumPick(zs', ids, x);
      SumSame(zs, zs', ids - {x});
    }
  }

  ghost function Total(zs: map<nat, Zspage>): nat {
    SumOf(zs, zs.Keys)
  }

  lemma {:induction false} TotalUpdate(zs: map<nat, Zspage>, zs': map<nat, Zspage>, z: nat)
    requires z in zs && zs'.Keys == zs.Keys && forall x :: x in zs && x != z ==> zs'[x].inuse == zs[x].inuse
    ensures Total(zs') + zs[z].inuse == Total(zs) + zs'[z].inuse
  {
    SumPick(zs, zs.Keys, z);
    SumPick(zs', zs.Keys, z);
    SumSame(zs, zs', zs.Keys - {z});
  }

  lemma {:induction false} TotalAdd(zs: map<nat, Zspage>, zs': map<nat, Zspage>, z: nat)
    requires z !in zs && zs'.Keys == zs.Keys + {z} && forall x :: x in zs ==> zs'[x].inuse == zs[x].inuse
    ensures Total(zs') == Total(zs) + zs'[z].inuse
  {
    SumPick(zs', zs'.Keys, z);
    assert zs'.Keys - {z} == zs.Keys;
    SumSame(zs, zs', zs.Keys);
  }

  lemma {:induction false} TotalRemove(zs: map<nat, Zspage>, z: nat)
    requires z in zs
    ensures Total(zs - {z}) + zs[z].inuse == Total(zs) && |zs - {z}| == |zs| - 1
  {
    var zs' := zs - {z};
    assert zs'.Keys == zs.Keys - {z};
    SumPick(zs, zs.Keys, z);
    SumSame(zs, zs', zs'.Keys);
    SizeOf(zs);
    SizeOf(zs');
  }

  lemma {:induction false} SizeOf(zs: map<nat, Zspage>)
    ensures |zs| == |zs.Keys|
  {
  }

  /** k times m */
  function Times(k: nat, m: nat): nat {
    if m == 0 then 0 else Times(k, m - 1) + k
  }

  /** ZS_OBJS_INUSE, ZS_OBJS_ALLOCATED and pages_allocated are the sums over the zspages. */
  ghost predicate SumsFit(c: Class, zs: map<nat, Zspage>, q: Lists) {
    && q.used == Total(zs) && q.provided == Times(c.n, |zs|) && q.pages == Times(c.p, |zs|)
  }

  lemma {:induction false} SumBound(zs: map<nat, Zspage>, ids: set<nat>, n: nat)
    requires ids <= zs.Keys && forall z :: z in ids ==> zs[z].inuse <= n
    ensures SumOf(zs, ids) <= Times(n, |ids|)
    decreases |ids|
  {
    if ids != {} {
      var x :| x in ids;
      SumPick(zs, ids, x);
      SumBound(zs, ids - {x}, n);
    }
  }

  // ----- zspages that change, come and go ----------------------------------------------------------------

  /** fix_fullness_group */
  function Fixed(c: Class, zs: map<nat, Zspage>, q: Lists, z: nat): Lists
    requires c.n > 0 && z in zs && z in q.fullness && |q.lists| == GROUPS && |q.stat| == GROUPS
    requires Group(c, zs[z].inuse) < GROUPS
    requires q.fullness[z] < GROUPS && q.stat[q.fullness[z]] > 0
  {
    if Group(c, zs[z].inuse) == q.fullness[z] then q else Insert(Remove(q, z), z, Group(c, zs[z].inuse))
  }

  lemma {:induction false} SameGroupFits(
    c: Class, zs: map<nat, Zspage>, zs': map<nat, Zspage>, q: Lists, out: set<nat>, z: nat)
    requires CanRemove(c, zs, q, out, z) && zs'.Keys == zs.Keys && Group(c, zs'[z].inuse) == Group(c, zs[z].inuse)
    requires forall x :: x in zs && x != z ==> zs'[x].inuse == zs[x].inuse
    ensures ListsFit(c, zs', q, out)
  {
    forall g, k | 0 <= g < GROUPS && 0 <= k < |q.lists[g]|
      ensures ListedAt(c, zs', q, out, g, k)
    {
      assert ListedAt(c, zs, q, out, g, k);
    }
    forall x | x in zs'
      ensures Filed(c, zs', q, out, x)
    {
      assert Filed(c, zs, q, out, x);
    }
  }

  lemma {:induction false} FixFits(
    c: Class, zs: map<nat, Zspage>, zs': map<nat, Zspage>, q: Lists, out: set<nat>, z: nat)
    requires CanRemove(c, zs, q, out, z) && zs'.Keys == zs.Keys && zs'[z].inuse <= c.n
    requires forall x :: x in zs && x != z ==> zs'[x].inuse == zs[x].inuse
    ensures z in q.fullness && |q.lists| == GROUPS && |q.stat| == GROUPS && Group(c, zs'[z].inuse) < GROUPS
    ensures q.fullness[z] < GROUPS && q.stat[q.fullness[z]] > 0
    ensures ListsFit(c, zs', Fixed(c, zs', q, z), out)
  {
    RemoveDefined(c, zs, q, out, z);
    GroupRange(c, zs'[z].inuse);
    if Group(c, zs'[z].inuse) == q.fullness[z] {
      SameGroupFits(c, zs, zs', q, out, z);
    } else {
      RemoveFits(c, zs, q, out, z);
      OutMayChange(c, zs, zs', Remove(q, z), out + {z});
      InsertFits(c, zs', Remove(q, z), out + {z}, z, Group(c, zs'[z].inuse));
      assert out + {z} - {z} == out;
    }
  }

  /** A new zspage is isolated until it is inserted. */
  lemma {:induction false} NewIsOut(
    c: Class, zs: map<nat, Zspage>, zs': map<nat, Zspage>, q: Lists, out: set<nat>, z: nat)
    requires c.n > 0 && ListsFit(c, zs, q, out) && z !in zs && zs'.Keys == zs.Keys + {z}
    requires forall x :: x in zs ==> zs'[x].inuse == zs[x].inuse
    ensures ListsFit(c, zs', q, out + {z})
  {
    forall g, k | 0 <= g < GROUPS && 0 <= k < |q.lists[g]|
      ensures ListedAt(c, zs', q, out + {z}, g, k)
    {
      assert ListedAt(c, zs, q, out, g, k);
    }
    forall x | x in zs'
      ensures Filed(c, zs', q, out + {z}, x)
    {
      assert x in zs ==> Filed(c, zs, q, out, x);
    }
  }

  /** An isolated zspage can go away. */
  lemma {:induction false} GoneFits(
    c: Class, zs: map<nat, Zspage>, zs': map<nat, Zspage>, q: Lists, out: set<nat>, z: nat)
    requires c.n > 0 && ListsFit(c, zs, q, out) && z in zs && z in out && zs' == zs - {z}
    ensures ListsFit(c, zs', q, out - {z})
  {
    forall g, k | 0 <= g < GROUPS && 0 <= k < |q.lists[g]|
      ensures ListedAt(c, zs', q, out - {z}, g, k)
    {
      assert ListedAt(c, zs, q, out, g, k);
    }
    forall x | x in zs'
      ensures Filed(c, zs', q, out - {z}, x)
    {
      assert Filed(c, zs, q, out, x);
    }
  }

  /** async_free_zspage takes the list of empty zspages as a whole. */
  function Spliced(q: Lists): Lists
    requires |q.lists| == GROUPS
  {
    q.(lists := q.lists[0 := []], inflight := q.inflight + q.lists[0])
  }

  lemma {:induction false} SpliceInflight(c: Class, zs: map<nat, Zspage>, q: Lists, out: set<nat>)
    requires c.n > 0 && ListsFit(c, zs, q, out)
    ensures NoDup(q.inflight + q.lists[0])
    ensures forall i :: 0 <= i < |q.inflight + q.lists[0]| ==>
              var z := (q.inflight + q.lists[0])[i]; z in zs && z !in out && zs[z].inuse == 0
  {
    assert CountFits(q, 0);
    forall k | 0 <= k < |q.lists[0]|
      ensures q.lists[0][k] in zs && q.lists[0][k] !in out && q.lists[0][k] !in q.inflight
      ensures zs[q.lists[0][k]].inuse == 0
    {
      assert ListedAt(c, zs, q, out, 0, k);
    }
  }

  lemma {:induction false} SpliceFits(c: Class, zs: map<nat, Zspage>, q: Lists, out: set<nat>)
    requires c.n > 0 && ListsFit(c, zs, q, out)
    ensures ListsFit(c, zs, Spliced(q), out)
  {
    var q' := Spliced(q);
    SpliceInflight(c, zs, q, out);
    forall g | 0 <= g < GROUPS
      ensures CountFits(q', g)
    {
      assert CountFits(q, g);
    }
    forall g, k | 0 <= g < GROUPS && 0 <= k < |q'.lists[g]|
      ensures ListedAt(c, zs, q', out, g, k)
    {
      SpliceListed(c, zs, q, out, g, k);
    }
    forall x | x in zs
      ensures Filed(c, zs, q', out, x)
    {
      assert Filed(c, zs, q, out, x);
      assert x in q.lists[0] ==> x in q'.inflight;
    }
  }

  lemma {:induction false} SpliceListed(c: Class, zs: map<nat, Zspage>, q: Lists, out: set<nat>, g: nat, k: nat)
    requires c.n > 0 && ListsFit(c, zs, q, out) && 0 < g < GROUPS && k < |q.lists[g]|
    ensures ListedAt(c, zs, Spliced(q), out, g, k)
  {
    assert ListedAt(c, zs, q, out, g, k);
    forall m | 0 <= m < |q.lists[0]|
      ensures q.lists[0][m] != q.lists[g][k]
    {
      assert ListedAt(c, zs, q, out, 0, m);
    }
  }

  /** The first zspage in flight is freed. */
  function Arrived(q: Lists): Lists
    requires q.inflight != [] && |q.stat| == GROUPS && q.stat[0] > 0
  {
    q.(inflight := q.inflight[1..], stat := q.stat[0 := q.stat[0] - 1])
  }

  lemma {:induction false} LandFits(c: Class, zs: map<nat, Zspage>, zs': map<nat, Zspage>, q: Lists, out: set<nat>)
    requires c.n > 0 && ListsFit(c, zs, q, out) && q.inflight != [] && zs' == zs - {q.inflight[0]}
    ensures q.stat[0] > 0 && ListsFit(c, zs', Arrived(q), out)
  {
    assert CountFits(q, 0);
    var z, q' := q.inflight[0], Arrived(q);
    forall g | 0 <= g < GROUPS
      ensures CountFits(q', g)
    {
      assert CountFits(q, g);
    }
    forall g, k | 0 <= g < GROUPS && 0 <= k < |q'.lists[g]|
      ensures ListedAt(c, zs', q', out, g, k)
    {
      assert ListedAt(c, zs, q, out, g, k);
    }
    forall x | x in zs'
      ensures Filed(c, zs', q', out, x)
    {
      assert Filed(c, zs, q, out, x);
      assert q.inflight == [z] + q.inflight[1..];
    }
  }
}
