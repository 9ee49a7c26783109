/** One zspage of mm/zsmalloc.c: a free list kept inside the free objects, and the handle of an
    allocated object kept in its first word. */
module ZsZspage {
  import opened ZsMemory

  const U32 := 0x1_0000_0000
  const U64 := 0x1_0000_0000_0000_0000

  /** struct zspage: the chain of pages, the first free object, the number of objects in use, and
      for a huge zspage the word where its only page keeps the handle (page->index). */
  datatype Zspage = Zspage(frames: seq<nat>, freeobj: nat, inuse: nat, index: Word)

  /** One object in one page: the handle is not kept in the object. */
  predicate Huge(c: Class) {
    c.n == 1 && c.p == 1
  }

  /** There is room for part of one more object after the last whole one. */
  predicate HasTail(c: Class) {
    Start(c, c.n) < Words(c)
  }

  /** Object numbers stay clear of the end marker. */
  predicate Numbered(c: Class) {
    Good(c) && c.n + 1 < U32 / 2 - 1
  }

  /** The end of a free list: the partial object after the last whole one if there is room for it,
      or the end marker, cut to 32 bits and possibly shifted once. */
  predicate IsStop(c: Class, x: nat) {
    if HasTail(c) then x == c.n else x == U32 - 1 || x == U32 / 2 - 1
  }

  /** link->next >> OBJ_TAG_BITS, as it is stored in the 32 bits of freeobj. */
  function Next(w: Word): nat {
    w / 2 % U32
  }

  /** freeobj << OBJ_TAG_BITS, in 32 bits. */
  function Link(x: nat): Word {
    2 * x % U32
  }

  lemma {:induction false} LinkNext(c: Class, x: nat)
    requires Numbered(c) && (x <= c.n || IsStop(c, x))
    ensures Link(x) % 2 == 0
    ensures x <= c.n ==> Next(Link(x)) == x
    ensures IsStop(c, x) ==> IsStop(c, Next(Link(x)))
  {
  }

  // ----- the free list ------------------------------------------------------------------------------

  /** x is element k of the list, or its end. */
  predicate Leads(c: Class, x: nat, fl: seq<nat>, k: nat) {
    if k < |fl| then x == fl[k] else IsStop(c, x)
  }

  /** Element k of the list holds the link to the next. */
  predicate LinkedAt(c: Class, flat: seq<Word>, fl: seq<nat>, k: nat) {
    k < |fl| && fl[k] < c.n && Start(c, fl[k]) < |flat| && Leads(c, Next(flat[Start(c, fl[k])]), fl, k + 1)
  }

  /** The first word of object i tells whether it is in the list. */
  predicate TaggedAt(c: Class, flat: seq<Word>, fl: seq<nat>, i: nat) {
    Start(c, i) < |flat| && (flat[Start(c, i)] % 2 == 0 <==> i in fl)
  }

  /** Following freeobj visits exactly the objects whose tag is clear, each once. */
  ghost predicate FreeList(c: Class, flat: seq<Word>, freeobj: nat, fl: seq<nat>) {
    && |flat| == Words(c)
    && Leads(c, freeobj, fl, 0)
    && (forall k :: 0 <= k < |fl| ==> LinkedAt(c, flat, fl, k))
    && (forall k, m :: 0 <= k < m < |fl| ==> fl[k] != fl[m])
    && (forall i :: 0 <= i < c.n ==> TaggedAt(c, flat, fl, i))
  }

  /** The partial object at the end is never marked as allocated. */
  predicate TailClear(c: Class, flat: seq<Word>) {
    HasTail(c) && |flat| == Words(c) ==> flat[Start(c, c.n)] % 2 == 0
  }

  /** The state of a zspage and its free list; the list of a huge zspage is not kept. */
  ghost predicate Consistent(c: Class, flat: seq<Word>, z: Zspage, fl: seq<nat>) {
    && |flat| == Words(c) && |z.frames| == c.p
    && if Huge(c) then
         && z.inuse <= 1 && (z.inuse == 1 <==> z.index % 2 == 1) && (z.inuse == 0 ==> z.freeobj == 0)
       else
         FreeList(c, flat, z.freeobj, fl) && z.inuse + |fl| == c.n && TailClear(c, flat)
  }

  /** The word that tells whether object i is allocated, and to which handle. */
  function Header(c: Class, flat: seq<Word>, z: Zspage, i: nat): Word
    requires Good(c) && |flat| == Words(c) && i < c.n
  {
    ObjectFits(c, i);
    if Huge(c) then z.index else flat[Start(c, i)]
  }

  /** The words of object i that belong to its user. */
  function Payload(c: Class, flat: seq<Word>, i: nat): (r: seq<Word>)
    requires Good(c) && |flat| == Words(c) && i < c.n
    ensures |r| == if Huge(c) then c.sz else c.sz - 1
  {
    ObjectFits(c, i);
    if Huge(c) then flat[Start(c, i)..Start(c, i) + c.sz] else flat[Start(c, i) + 1..Start(c, i) + c.sz]
  }

  lemma {:induction false} StartsDiffer(c: Class, i: nat, j: nat)
    requires Good(c) && i != j
    ensures Start(c, i) != Start(c, j)
    ensures !(Start(c, i) <= Start(c, j) < Start(c, i) + c.sz)
  {
    if i < j {
      StartMono(c, i, j);
    } else {
      StartMono(c, j, i);
    }
  }

  // ----- allocating an object -----------------------------------------------------------------------

  /** A zspage that is not full has a free object, and freeobj is one. */
  lemma {:induction false} FirstFree(c: Class, flat: seq<Word>, z: Zspage, fl: seq<nat>)
    requires Numbered(c) && Consistent(c, flat, z, fl) && z.inuse < c.n
    ensures z.freeobj < c.n && Header(c, flat, z, z.freeobj) % 2 == 0
    ensures !Huge(c) ==> fl != [] && fl[0] == z.freeobj
  {
    if !Huge(c) {
      assert LinkedAt(c, flat, fl, 0);
      assert TaggedAt(c, flat, fl, z.freeobj);
    }
  }

  /** obj_malloc on the flat view. */
  function MallocFlat(c: Class, flat: seq<Word>, z: Zspage, h: nat): (r: seq<Word>)
    requires Good(c) && |flat| == Words(c) && z.freeobj < c.n
    ensures |r| == |flat|
  {
    ObjectFits(c, z.freeobj);
    if Huge(c) then flat else flat[Start(c, z.freeobj) := h + 1]
  }

  function MallocZspage(c: Class, flat: seq<Word>, z: Zspage, h: nat): Zspage
    requires Good(c) && |flat| == Words(c) && z.freeobj < c.n
  {
    ObjectFits(c, z.freeobj);
    var next := Next(flat[Start(c, z.freeobj)]);
    if Huge(c) then z.(freeobj := next, inuse := z.inuse + 1, index := h + 1)
    else z.(freeobj := next, inuse := z.inuse + 1)
  }

  lemma {:induction false} RestOfList(c: Class, flat: seq<Word>, fl: seq<nat>, w: Word, k: nat)
    requires Good(c) && |flat| == Words(c) && fl != [] && fl[0] < c.n && Start(c, fl[0]) < |flat|
    requires forall k, m :: 0 <= k < m < |fl| ==> fl[k] != fl[m]
    requires k + 1 < |fl| && LinkedAt(c, flat, fl, k + 1)
    ensures LinkedAt(c, flat[Start(c, fl[0]) := w], fl[1..], k)
  {
    StartsDiffer(c, fl[0], fl[k + 1]);
  }

  lemma {:induction false} PopTags(c: Class, flat: seq<Word>, fl: seq<nat>, w: Word, i: nat)
    requires Good(c) && |flat| == Words(c) && fl != [] && Start(c, fl[0]) < |flat| && w % 2 == 1
    requires forall k, m :: 0 <= k < m < |fl| ==> fl[k] != fl[m]
    requires i < c.n && TaggedAt(c, flat, fl, i)
    ensures TaggedAt(c, flat[Start(c, fl[0]) := w], fl[1..], i)
  {
    if i == fl[0] {
      assert i !in fl[1..];
    } else {
      StartsDiffer(c, fl[0], i);
      assert i in fl <==> i in fl[1..];
    }
  }

  lemma {:induction false} PopList(c: Class, flat: seq<Word>, freeobj: nat, fl: seq<nat>, w: Word)
    requires Good(c) && FreeList(c, flat, freeobj, fl) && fl != [] && w % 2 == 1 && fl[0] < c.n
    requires Start(c, fl[0]) < |flat|
    ensures FreeList(c, flat[Start(c, freeobj) := w], Next(flat[Start(c, freeobj)]), fl[1..])
  {
    var flat', fl' := flat[Start(c, freeobj) := w], fl[1..];
    assert LinkedAt(c, flat, fl, 0);
    forall k | 0 <= k < |fl'|
      ensures LinkedAt(c, flat', fl', k)
    {
      assert LinkedAt(c, flat, fl, k + 1);
      RestOfList(c, flat, fl, w, k);
    }
    forall i | 0 <= i < c.n
      ensures TaggedAt(c, flat', fl', i)
    {
      PopTags(c, flat, fl, w, i);
    }
  }

  /** Allocating takes the first object off the list. */
  lemma {:induction false} MallocKeeps(c: Class, flat: seq<Word>, z: Zspage, fl: seq<nat>, h: nat)
    requires Numbered(c) && Consistent(c, flat, z, fl) && z.inuse < c.n && h % 2 == 0
    ensures z.freeobj < c.n
    ensures Consistent(c, MallocFlat(c, flat, z, h), MallocZspage(c, flat, z, h), if Huge(c) then fl else fl[1..])
  {
    FirstFree(c, flat, z, fl);
    if !Huge(c) {
      ObjectFits(c, z.freeobj);
      PopList(c, flat, z.freeobj, fl, h + 1);
      StartsDiffer(c, z.freeobj, c.n);
    }
  }

  /** It changes the header of that object only, and no payload of an allocated object. */
  lemma {:induction false} MallocElsewhere(c: Class, flat: seq<Word>, z: Zspage, h: nat, i: nat)
    requires Good(c) && |flat| == Words(c) && z.freeobj < c.n && i < c.n
    ensures var flat' := MallocFlat(c, flat, z, h);
            && |flat'| == Words(c)
            && Header(c, flat', MallocZspage(c, flat, z, h), i) ==
                 (if i == z.freeobj then h + 1 else Header(c, flat, z, i))
            && Payload(c, flat', i) == Payload(c, flat, i)
  {
    if !Huge(c) {
      ObjectFits(c, z.freeobj);
      HeaderWrite(c, flat, z.freeobj, h + 1, i);
    }
  }

  lemma {:induction false} HeaderWrite(c: Class, flat: seq<Word>, j: nat, w: Word, i: nat)
    requires Good(c) && |flat| == Words(c) && j < c.n && Start(c, j) < |flat| && i < c.n
    ensures Start(c, i) + c.sz <= |flat|
    ensures flat[Start(c, j) := w][Start(c, i)] == if i == j then w else flat[Start(c, i)]
    ensures flat[Start(c, j) := w][Start(c, i) + 1..Start(c, i) + c.sz] == flat[Start(c, i) + 1..Start(c, i) + c.sz]
  {
    ObjectFits(c, i);
    if i != j {
      StartsDiffer(c, i, j);
    }
  }

  // ----- freeing an object ----------------------------------------------------------------------------

  /** obj_free on the flat view. */
  function FreeFlat(c: Class, flat: seq<Word>, z: Zspage, i: nat): (r: seq<Word>)
    requires Good(c) && |flat| == Words(c) && i < c.n
    ensures |r| == |flat|
  {
    ObjectFits(c, i);
    if Huge(c) then flat else flat[Start(c, i) := Link(z.freeobj)]
  }

  function FreeZspage(c: Class, z: Zspage, i: nat): Zspage
    requires z.inuse > 0
  {
    if Huge(c) then z.(freeobj := i, inuse := z.inuse - 1, index := 0) else z.(freeobj := i, inuse := z.inuse - 1)
  }

  lemma {:induction false} StillLinked(c: Class, flat: seq<Word>, fl: seq<nat>, i: nat, w: Word, k: nat)
    requires Good(c) && |flat| == Words(c) && i < c.n && Start(c, i) < |flat| && i !in fl && LinkedAt(c, flat, fl, k)
    ensures LinkedAt(c, flat[Start(c, i) := w], [i] + fl, k + 1)
  {
    assert fl[k] in fl;
    StartsDiffer(c, i, fl[k]);
  }

  lemma {:induction false} PushTags(c: Class, flat: seq<Word>, fl: seq<nat>, i: nat, w: Word, j: nat)
    requires Good(c) && |flat| == Words(c) && i < c.n && Start(c, i) < |flat| && w % 2 == 0
    requires j < c.n && TaggedAt(c, flat, fl, j)
    ensures TaggedAt(c, flat[Start(c, i) := w], [i] + fl, j)
  {
    if i != j {
      StartsDiffer(c, i, j);
    }
  }

  lemma {:induction false} FirstLink(c: Class, freeobj: nat, fl: seq<nat>, flat: seq<Word>, i: nat)
    requires Numbered(c) && FreeList(c, flat, freeobj, fl) && i < c.n && Start(c, i) < |flat|
    ensures LinkedAt(c, flat[Start(c, i) := Link(freeobj)], [i] + fl, 0) && Link(freeobj) % 2 == 0
  {
    if fl != [] {
      assert LinkedAt(c, flat, fl, 0);
    }
    LinkNext(c, freeobj);
  }

  lemma {:induction false} PushList(c: Class, flat: seq<Word>, freeobj: nat, fl: seq<nat>, i: nat)
    requires Numbered(c) && FreeList(c, flat, freeobj, fl) && i < c.n && i !in fl && Start(c, i) < |flat|
    ensures FreeList(c, flat[Start(c, i) := Link(freeobj)], i, [i] + fl)
  {
    var flat', fl' := flat[Start(c, i) := Link(freeobj)], [i] + fl;
    FirstLink(c, freeobj, fl, flat, i);
    forall k | 0 <= k < |fl'|
      ensures LinkedAt(c, flat', fl', k)
    {
      if k > 0 {
        StillLinked(c, flat, fl, i, Link(freeobj), k - 1);
      }
    }
    forall j | 0 <= j < c.n
      ensures TaggedAt(c, flat', fl', j)
    {
      PushTags(c, flat, fl, i, Link(freeobj), j);
    }
  }

  /** Freeing puts the object at the front of the list. */
  lemma {:induction false} FreeKeeps(c: Class, flat: seq<Word>, z: Zspage, fl: seq<nat>, i: nat)
    requires Numbered(c) && Consistent(c, flat, z, fl) && i < c.n && Header(c, flat, z, i) % 2 == 1
    ensures z.inuse > 0
    ensures Consistent(c, FreeFlat(c, flat, z, i), FreeZspage(c, z, i), if Huge(c) then fl else [i] + fl)
  {
    ObjectFits(c, i);
    if !Huge(c) {
      assert TaggedAt(c, flat, fl, i);
      forall k | 0 <= k < |fl|
        ensures fl[k] < c.n
      {
        assert LinkedAt(c, flat, fl, k);
      }
      NotAllFree(c, fl, i);
      PushList(c, flat, z.freeobj, fl, i);
      StartsDiffer(c, i, c.n);
    }
  }

  /** The list has fewer elements than there are objects if one is not in it. */
  lemma {:induction false} NotAllFree(c: Class, fl: seq<nat>, i: nat)
    requires i < c.n && i !in fl && (forall k :: 0 <= k < |fl| ==> fl[k] < c.n)
    requires forall k, m :: 0 <= k < m < |fl| ==> fl[k] != fl[m]
    ensures |fl| < c.n
  {
    SubsetSize(Elements(fl, |fl|), UpTo(c.n) - {i});
  }

  function Elements(fl: seq<nat>, n: nat): (r: set<nat>)
    requires n <= |fl| && forall k, m :: 0 <= k < m < |fl| ==> fl[k] != fl[m]
    ensures |r| == n && forall x :: x in r ==> exists k :: 0 <= k < n && fl[k] == x
  {
    if n == 0 then {} else Elements(fl, n - 1) + {fl[n - 1]}
  }

  function UpTo(n: nat): (r: set<nat>)
    ensures |r| == n && forall x :: x in r <==> 0 <= x < n
  {
    if n == 0 then {} else UpTo(n - 1) + {n - 1}
  }

  lemma {:induction false} SubsetSize(a: set<nat>, b: set<nat>)
    requires a <= b
    ensures |a| <= |b|
    decreases |a|
  {
    if a != {} {
      var x :| x in a;
      SubsetSize(a - {x}, b - {x});
    }
  }

  lemma {:induction false} FreeElsewhere(c: Class, flat: seq<Word>, z: Zspage, i: nat, j: nat)
    requires Numbered(c) && |flat| == Words(c) && i < c.n && j < c.n && z.inuse > 0
    ensures var flat' := FreeFlat(c, flat, z, i);
            && |flat'| == Words(c)
            && Header(c, flat', FreeZspage(c, z, i), j) ==
               (if i == j then (if Huge(c) then 0 else Link(z.freeobj)) else Header(c, flat, z, j))
            && Payload(c, flat', j) == Payload(c, flat, j)
  {
    if !Huge(c) {
      ObjectFits(c, i);
      HeaderWrite(c, flat, i, Link(z.freeobj), j);
    }
  }

  // ----- using an object ------------------------------------------------------------------------------

  /** Writing the payload of object i. */
  function WriteFlat(c: Class, flat: seq<Word>, i: nat, data: seq<Word>): (r: seq<Word>)
    requires Good(c) && |flat| == Words(c) && i < c.n && |data| == |Payload(c, flat, i)|
    ensures |r| == |flat|
  {
    ObjectFits(c, i);
    Overwrite(flat, if Huge(c) then Start(c, i) else Start(c, i) + 1, data)
  }

  /** It changes that payload, and neither headers nor other payloads. */
  lemma {:induction false} WriteElsewhere(c: Class, flat: seq<Word>, i: nat, data: seq<Word>, j: nat)
    requires Good(c) && |flat| == Words(c) && i < c.n && |data| == |Payload(c, flat, i)| && j < c.n
    ensures var flat' := WriteFlat(c, flat, i, data);
            && |flat'| == Words(c)
            && (!Huge(c) ==> Start(c, j) < |flat| && flat'[Start(c, j)] == flat[Start(c, j)])
            && Payload(c, flat', j) == if i == j then data else Payload(c, flat, j)
  {
    ObjectFits(c, i);
    ObjectFits(c, j);
    if i != j {
      StartsDiffer(c, i, j);
      StartsDiffer(c, j, i);
    }
  }
}
