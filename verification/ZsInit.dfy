/** init_zspage in mm/zsmalloc.c: the free list of a new zspage, written page by page. */
module ZsInit {
  import opened ZsMemory
  import opened ZsZspage

  /** The first object that starts at word k or later, looking from object i on. */
  function FirstFrom(c: Class, k: nat, i: nat): (r: nat)
    requires c.sz > 0 && (i == 0 || Start(c, i - 1) < k)
    ensures Start(c, r) >= k && (r == 0 || Start(c, r - 1) < k)
    decreases k - Start(c, i)
  {
    if Start(c, i) >= k then i else FirstFrom(c, k, i + 1)
  }

  /** The first object that starts in page j, and its offset (get_first_obj_offset). */
  function FirstObject(c: Class, j: nat): nat
    requires c.sz > 0
  {
    FirstFrom(c, PageStart(c, j), 0)
  }

  function FirstOffset(c: Class, j: nat): nat
    requires c.sz > 0
  {
    Start(c, FirstObject(c, j)) - PageStart(c, j)
  }

  lemma {:induction false} FirstObjectIs(c: Class, j: nat, i: nat)
    requires c.sz > 0 && Start(c, i) >= PageStart(c, j) && (i == 0 || Start(c, i - 1) < PageStart(c, j))
    ensures FirstObject(c, j) == i
  {
    var f := FirstObject(c, j);
    if f < i {
      StartMono(c, f, i - 1);
    } else if i < f {
      StartMono(c, i, f - 1);
    }
  }

  /** The number of the last object that starts in the zspage, whole or not. */
  function LastObject(c: Class): nat
    requires c.n > 0
  {
    if HasTail(c) then c.n else c.n - 1
  }

  /** The end marker: -1UL << OBJ_TAG_BITS. */
  const MARKER: Word := U64 - 2

  /** The first i objects lead to the next one each. */
  ghost predicate LinkedTo(c: Class, flat: seq<Word>, i: nat) {
    forall m :: 0 <= m < i ==> InOrder(c, flat, m)
  }

  predicate InOrder(c: Class, flat: seq<Word>, m: nat) {
    Start(c, m) < |flat| && flat[Start(c, m)] == 2 * (m + 1)
  }

  /** All objects lead to the next, and the last one ends the list. */
  ghost predicate Fresh(c: Class, flat: seq<Word>)
    requires c.n > 0
  {
    && |flat| == Words(c) && LinkedTo(c, flat, LastObject(c))
    && Start(c, LastObject(c)) < |flat| && flat[Start(c, LastObject(c))] == MARKER
  }

  function InSequence(n: nat): (r: seq<nat>)
    ensures |r| == n && forall i :: 0 <= i < n ==> r[i] == i
  {
    seq(n, i requires 0 <= i < n => i)
  }

  lemma {:induction false} FreshNext(c: Class, flat: seq<Word>, i: nat)
    requires Numbered(c) && Fresh(c, flat) && i < c.n
    ensures Start(c, i) < |flat| && flat[Start(c, i)] % 2 == 0
    ensures Leads(c, Next(flat[Start(c, i)]), InSequence(c.n), i + 1)
  {
    ObjectFits(c, i);
    if i < LastObject(c) {
      assert InOrder(c, flat, i);
      NextInOrder(i);
    } else {
      NextOfMarker();
    }
  }

  lemma {:induction false} NextInOrder(i: nat)
    requires i + 1 < U32
    ensures Next(2 * (i + 1)) == i + 1 && 2 * (i + 1) % 2 == 0
  {
    assert 2 * (i + 1) / 2 == i + 1;
  }

  lemma {:induction false} NextOfMarker()
    ensures Next(MARKER) == U32 - 1 && MARKER % 2 == 0
  {
  }

  /** So a new zspage is consistent, with all objects free in order. */
  lemma {:induction false} FreshConsistent(c: Class, flat: seq<Word>, frames: seq<nat>)
    requires Numbered(c) && Fresh(c, flat) && |frames| == c.p
    ensures Consistent(c, flat, Zspage(frames, 0, 0, 0), InSequence(c.n))
  {
    var fl := InSequence(c.n);
    forall k | 0 <= k < |fl|
      ensures LinkedAt(c, flat, fl, k)
    {
      FreshNext(c, flat, k);
    }
    forall i | 0 <= i < c.n
      ensures TaggedAt(c, flat, fl, i)
    {
      FreshNext(c, flat, i);
      assert fl[i] == i;
    }
  }

  /** Writing the link of object i leaves the earlier ones alone. */
  lemma {:induction false} LinkNextObject(c: Class, flat: seq<Word>, i: nat, w: Word)
    requires Good(c) && LinkedTo(c, flat, i) && Start(c, i) < |flat|
    ensures LinkedTo(c, flat[Start(c, i) := w], i)
    ensures w == 2 * (i + 1) ==> LinkedTo(c, flat[Start(c, i) := w], i + 1)
  {
    var flat' := flat[Start(c, i) := w];
    forall m | 0 <= m < i
      ensures InOrder(c, flat', m)
    {
      assert InOrder(c, flat, m);
      StartsDiffer(c, m, i);
    }
    if w == 2 * (i + 1) {
      assert InOrder(c, flat', i);
    }
  }

  /** Write the link of object i, which starts at offset r of page j. */
  method WriteLink(c: Class, mem: Memory, frames: seq<nat>, j: nat, r: nat, ghost i: nat, w: Word)
    returns (mem': Memory)
    requires Good(c) && Chain(c, mem, frames) && j < c.p && r < c.pw && Start(c, i) == PageStart(c, j) + r
    requires LinkedTo(c, View(c, mem, frames), i)
    ensures Chain(c, mem', frames) && OnlyIn(mem, mem', frames) && LinkedTo(c, View(c, mem', frames), i)
    ensures w == 2 * (i + 1) ==> LinkedTo(c, View(c, mem', frames), i + 1)
    ensures Start(c, i) < Words(c) && View(c, mem', frames)[Start(c, i)] == w
  {
    PageInView(c, mem, frames, j, r);
    PageJoin(c, j, r);
    LinkNextObject(c, View(c, mem, frames), i, w);
    mem' := StoreWord(c, mem, frames, PageStart(c, j) + r, w);
  }

  /** The objects that start in page j, from offset `off` on, except the last: each leads to the
      next.  The result is the offset just after the page's last object, and that object's own. */
  method LinkPage(c: Class, mem: Memory, frames: seq<nat>, j: nat, off: nat, freeobj: nat, ghost i: nat)
    returns (mem': Memory, off': nat, freeobj': nat, r: nat, ghost i': nat)
    requires Good(c) && Chain(c, mem, frames) && j < c.p && off < c.pw
    requires Start(c, i) == PageStart(c, j) + off && freeobj == i + 1 && LinkedTo(c, View(c, mem, frames), i)
    ensures Chain(c, mem', frames) && OnlyIn(mem, mem', frames) && LinkedTo(c, View(c, mem', frames), i')
    ensures Start(c, i') == PageStart(c, j) + r && r < c.pw && freeobj' == i' + 1
    ensures c.pw <= off' == r + c.sz
  {
    mem', off', freeobj', r, i' := mem, off + c.sz, freeobj, off, i;
    while off' < c.pw
      invariant Chain(c, mem', frames) && OnlyIn(mem, mem', frames) && LinkedTo(c, View(c, mem', frames), i')
      invariant Start(c, i') == PageStart(c, j) + r && r < c.pw && freeobj' == i' + 1 && off' == r + c.sz
      decreases c.pw - off'
    {
      mem' := WriteLink(c, mem', frames, j, r, i', 2 * freeobj');
      freeobj', r, i' := freeobj' + 1, r + c.sz, i' + 1;
      off' := off' + c.sz;
    }
  }

  lemma {:induction false} LastReached(c: Class, i: nat)
    requires Good(c) && Start(c, i) < Words(c) <= Start(c, i) + c.sz
    ensures i == LastObject(c)
  {
    if i < c.n {
      StartMono(c, i + 1, c.n);
    } else if i > c.n {
      StartMono(c, c.n + 1, i);
    }
  }

  /** Before page j: object i is the first to start in it, at offset off, and the earlier ones are
      linked. */
  ghost predicate BeforePage(c: Class, mem: Memory, frames: seq<nat>, j: nat, off: nat, freeobj: nat, i: nat)
    requires Good(c) && Chain(c, mem, frames)
  {
    && off < c.pw && Start(c, i) == PageStart(c, j) + off && freeobj == i + 1
    && (i == 0 || Start(c, i - 1) < PageStart(c, j)) && LinkedTo(c, View(c, mem, frames), i)
  }

  /** One round of the outer loop in init_zspage. */
  method InitPage(c: Class, mem: Memory, frames: seq<nat>, j: nat, off: nat, freeobj: nat, ghost i: nat)
    returns (mem': Memory, off': nat, freeobj': nat, ghost i': nat)
    requires Good(c) && Chain(c, mem, frames) && j < c.p && BeforePage(c, mem, frames, j, off, freeobj, i)
    ensures Chain(c, mem', frames) && OnlyIn(mem, mem', frames)
    ensures j + 1 < c.p ==> BeforePage(c, mem', frames, j + 1, off', freeobj', i')
    ensures j + 1 == c.p ==> Fresh(c, View(c, mem', frames))
  {
    var r, end;
    mem', end, freeobj', r, i' := LinkPage(c, mem, frames, j, off, freeobj, i);
    if j + 1 < c.p {
      mem' := WriteLink(c, mem', frames, j, r, i', 2 * freeobj');
      freeobj', i' := freeobj' + 1, i' + 1;
    } else {
      mem' := WriteLink(c, mem', frames, j, r, i', MARKER);
      LastReached(c, i');
    }
    off' := end - c.pw;
  }

  /** init_zspage */
  method InitZspage(c: Class, mem: Memory, frames: seq<nat>) returns (mem': Memory, offsets: seq<nat>)
    requires Numbered(c) && Chain(c, mem, frames)
    ensures Chain(c, mem', frames) && OnlyIn(mem, mem', frames)
    ensures Consistent(c, View(c, mem', frames), Zspage(frames, 0, 0, 0), InSequence(c.n))
    ensures |offsets| == c.p && forall j :: 0 <= j < c.p ==> offsets[j] == FirstOffset(c, j)
  {
    mem', offsets := mem, [];
    var off, freeobj, j := 0, 1, 0;
    ghost var i := 0;
    while j < c.p
      invariant j <= c.p && Chain(c, mem', frames) && OnlyIn(mem, mem', frames)
      invariant |offsets| == j && forall k :: 0 <= k < j ==> offsets[k] == FirstOffset(c, k)
      invariant j < c.p ==> BeforePage(c, mem', frames, j, off, freeobj, i)
      invariant j == c.p ==> Fresh(c, View(c, mem', frames))
    {
      FirstObjectIs(c, j, i);
      offsets := offsets + [off];
      mem', off, freeobj, i := InitPage(c, mem', frames, j, off, freeobj, i);
      j := j + 1;
    }
    FreshConsistent(c, View(c, mem', frames), frames);
  }
}
