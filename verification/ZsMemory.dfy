/** How mm/zsmalloc.c lays objects out: a zspage is a chain of pages, objects of one size follow
    one another across the chain, and an object may straddle two pages.  Memory is counted in
    words of eight bytes (ZS_ALIGN). */
module ZsMemory {

  type Word = nat

  /** A size class: words in a page, words in an object, pages in a zspage, objects in a zspage. */
  datatype Class = Class(pw: nat, sz: nat, p: nat, n: nat)

  /** Where object i starts. */
  function Start(c: Class, i: nat): nat {
    if i == 0 then 0 else Start(c, i - 1) + c.sz
  }

  /** Where page j starts. */
  function PageStart(c: Class, j: nat): nat {
    if j == 0 then 0 else PageStart(c, j - 1) + c.pw
  }

  /** All words of a zspage. */
  function Words(c: Class): nat {
    PageStart(c, c.p)
  }

  /** The number of the page that holds word k, and the word's offset in it. */
  function PageOf(c: Class, k: nat): nat
    requires c.pw > 0
    decreases k
  {
    if k < c.pw then 0 else 1 + PageOf(c, k - c.pw)
  }

  function InPage(c: Class, k: nat): (r: nat)
    requires c.pw > 0
    ensures r < c.pw
    decreases k
  {
    if k < c.pw then k else InPage(c, k - c.pw)
  }

  /** Objects fit into pages, and n is the number of whole ones. */
  predicate Good(c: Class) {
    0 < c.sz <= c.pw && c.p > 0 && c.n > 0 && Start(c, c.n) <= Words(c) < Start(c, c.n + 1)
  }

  lemma {:induction false} PageSplit(c: Class, k: nat)
    requires c.pw > 0
    ensures k == PageStart(c, PageOf(c, k)) + InPage(c, k)
    decreases k
  {
    if k >= c.pw {
      PageSplit(c, k - c.pw);
    }
  }

  lemma {:induction false} PageJoin(c: Class, j: nat, r: nat)
    requires r < c.pw
    ensures PageOf(c, PageStart(c, j) + r) == j && InPage(c, PageStart(c, j) + r) == r
    decreases j
  {
    if j > 0 {
      PageJoin(c, j - 1, r);
    }
  }

  lemma {:induction false} PageStartMono(c: Class, i: nat, j: nat)
    requires i <= j
    ensures PageStart(c, i) <= PageStart(c, j) && (i < j ==> PageStart(c, i) + c.pw <= PageStart(c, j))
    decreases j
  {
    if i < j {
      PageStartMono(c, i, j - 1);
    }
  }

  lemma {:induction false} PageBound(c: Class, k: nat)
    requires c.pw > 0 && k < Words(c)
    ensures PageOf(c, k) < c.p
  {
    PageSplit(c, k);
    if PageOf(c, k) >= c.p {
      PageStartMono(c, c.p, PageOf(c, k));
    }
  }

  lemma {:induction false} StartMono(c: Class, i: nat, j: nat)
    requires i <= j
    ensures Start(c, i) <= Start(c, j) && (i < j ==> Start(c, i) + c.sz <= Start(c, j))
    decreases j
  {
    if i < j {
      StartMono(c, i, j - 1);
    }
  }

  /** Objects lie within the zspage. */
  lemma {:induction false} ObjectFits(c: Class, i: nat)
    requires Good(c) && i < c.n
    ensures Start(c, i) + c.sz == Start(c, i + 1) <= Words(c)
  {
    StartMono(c, i + 1, c.n);
  }

  // ----- memory -----------------------------------------------------------------------------------

  /** The pages of memory, by frame number. */
  type Memory = map<nat, seq<Word>>

  /** The chain of pages of a zspage: frames that exist, each once. */
  predicate Chain(c: Class, mem: Memory, frames: seq<nat>) {
    && |frames| == c.p
    && (forall j :: 0 <= j < |frames| ==> frames[j] in mem && |mem[frames[j]]| == c.pw)
    && forall i, j :: 0 <= i < j < |frames| ==> frames[i] != frames[j]
  }

  /** Word k of a zspage. */
  function At(c: Class, mem: Memory, frames: seq<nat>, k: nat): Word
    requires Good(c) && Chain(c, mem, frames) && k < Words(c)
  {
    PageBound(c, k);
    mem[frames[PageOf(c, k)]][InPage(c, k)]
  }

  /** The zspage as one flat run of words. */
  function View(c: Class, mem: Memory, frames: seq<nat>): (r: seq<Word>)
    requires Good(c) && Chain(c, mem, frames)
    ensures |r| == Words(c) && forall k :: 0 <= k < |r| ==> r[k] == At(c, mem, frames, k)
  {
    seq(Words(c), k requires 0 <= k < Words(c) => At(c, mem, frames, k))
  }

  // ----- stretches of words --------------------------------------------------------------------------

  /** A run of words with another written over it from `at` on. */
  function Overwrite(flat: seq<Word>, at: nat, data: seq<Word>): (r: seq<Word>)
    requires at + |data| <= |flat|
    ensures |r| == |flat|
    ensures forall k :: 0 <= k < |flat| ==> r[k] == if at <= k < at + |data| then data[k - at] else flat[k]
  {
    seq(|flat|, k requires 0 <= k < |flat| => if at <= k < at + |data| then data[k - at] else flat[k])
  }

  lemma {:induction false} OverwriteTwice(flat: seq<Word>, at: nat, data: seq<Word>, more: seq<Word>)
    requires at + |data| + |more| <= |flat|
    ensures Overwrite(Overwrite(flat, at, data), at + |data|, more) == Overwrite(flat, at, data + more)
  {
  }

  /** memcpy into one page. */
  function WritePage(mem: Memory, f: nat, r: nat, data: seq<Word>): Memory
    requires f in mem && r + |data| <= |mem[f]|
  {
    var page: seq<Word> := Overwrite(mem[f], r, data);
    mem[f := page]
  }

  /** Only pages of this chain have changed. */
  predicate OnlyIn(mem: Memory, mem': Memory, frames: seq<nat>) {
    mem'.Keys == mem.Keys && forall f :: f in mem && f !in frames ==> mem'[f] == mem[f]
  }

  predicate Apart(frames: seq<nat>, frames': seq<nat>) {
    forall i, j :: 0 <= i < |frames| && 0 <= j < |frames'| ==> frames[i] != frames'[j]
  }

  /** Words of one page are a stretch of the flat view. */
  lemma {:induction false} PageInView(c: Class, mem: Memory, frames: seq<nat>, j: nat, r: nat)
    requires Good(c) && Chain(c, mem, frames) && j < c.p && r < c.pw
    ensures PageStart(c, j) + r < Words(c) && View(c, mem, frames)[PageStart(c, j) + r] == mem[frames[j]][r]
  {
    PageStartMono(c, j + 1, c.p);
    PageJoin(c, j, r);
  }

  predicate SameWord(s: seq<Word>, a: nat, t: seq<Word>, b: nat, i: nat) {
    a + i < |s| && b + i < |t| && s[a + i] == t[b + i]
  }

  lemma {:induction false} SameSlice(s: seq<Word>, a: nat, t: seq<Word>, b: nat, len: nat)
    requires a + len <= |s| && b + len <= |t| && forall i :: 0 <= i < len ==> SameWord(s, a, t, b, i)
    ensures s[a..a + len] == t[b..b + len]
  {
    var x, y := s[a..a + len], t[b..b + len];
    forall i | 0 <= i < |x|
      ensures x[i] == y[i]
    {
      assert SameWord(s, a, t, b, i);
    }
  }

  lemma {:induction false} PageSlice(c: Class, mem: Memory, frames: seq<nat>, j: nat, r: nat, len: nat)
    requires Good(c) && Chain(c, mem, frames) && j < c.p && r + len <= c.pw
    ensures PageStart(c, j) + r + len <= Words(c)
    ensures mem[frames[j]][r..r + len] == View(c, mem, frames)[PageStart(c, j) + r..PageStart(c, j) + r + len]
  {
    PageStartMono(c, j + 1, c.p);
    var page, flat, k := mem[frames[j]], View(c, mem, frames), PageStart(c, j) + r;
    forall i | 0 <= i < len
      ensures SameWord(page, r, flat, k, i)
    {
      PageInView(c, mem, frames, j, r + i);
    }
    SameSlice(page, r, flat, k, len);
  }

  lemma {:induction false} WritePageAt(c: Class, mem: Memory, frames: seq<nat>, j: nat, r: nat, data: seq<Word>, m: nat)
    requires Good(c) && Chain(c, mem, frames) && j < c.p && r + |data| <= c.pw && m < Words(c)
    ensures Chain(c, WritePage(mem, frames[j], r, data), frames)
    ensures var at := PageStart(c, j) + r;
            At(c, WritePage(mem, frames[j], r, data), frames, m) ==
            if at <= m < at + |data| then data[m - at] else At(c, mem, frames, m)
  {
    PageBound(c, m);
    PageSplit(c, m);
    var i := PageOf(c, m);
    if i < j {
      PageStartMono(c, i, j);
    } else if j < i {
      PageStartMono(c, j, i);
    }
  }

  /** Writing into one page overwrites a stretch of the flat view. */
  lemma {:induction false} WritePageView(c: Class, mem: Memory, frames: seq<nat>, j: nat, r: nat, data: seq<Word>)
    requires Good(c) && Chain(c, mem, frames) && j < c.p && r + |data| <= c.pw
    ensures var mem' := WritePage(mem, frames[j], r, data);
            && Chain(c, mem', frames) && OnlyIn(mem, mem', frames) && PageStart(c, j) + r + |data| <= Words(c)
            && View(c, mem', frames) == Overwrite(View(c, mem, frames), PageStart(c, j) + r, data)
  {
    PageStartMono(c, j + 1, c.p);
    var mem' := WritePage(mem, frames[j], r, data);
    forall m | 0 <= m < Words(c)
      ensures Chain(c, mem', frames)
      ensures At(c, mem', frames, m) == Overwrite(View(c, mem, frames), PageStart(c, j) + r, data)[m]
    {
      WritePageAt(c, mem, frames, j, r, data, m);
    }
    StartMono(c, 0, c.n);
  }

  /** Chains of other pages are not affected. */
  lemma {:induction false} ChainElsewhere(c: Class, mem: Memory, mem': Memory, frames: seq<nat>, other: seq<nat>)
    requires Chain(c, mem, other) && OnlyIn(mem, mem', frames) && Apart(frames, other)
    ensures Chain(c, mem', other) && forall j :: 0 <= j < |other| ==> mem'[other[j]] == mem[other[j]]
  {
    forall j | 0 <= j < |other|
      ensures other[j] in mem' && mem'[other[j]] == mem[other[j]]
    {
      assert other[j] !in frames;
    }
  }

  lemma {:induction false} ViewElsewhere(c: Class, mem: Memory, mem': Memory, frames: seq<nat>, other: seq<nat>)
    requires Good(c) && Chain(c, mem, other) && OnlyIn(mem, mem', frames) && Apart(frames, other)
    ensures Chain(c, mem', other) && View(c, mem', other) == View(c, mem, other)
  {
    ChainElsewhere(c, mem, mem', frames, other);
    forall m | 0 <= m < Words(c)
      ensures View(c, mem', other)[m] == View(c, mem, other)[m]
    {
      PageBound(c, m);
    }
  }

  // ----- headers --------------------------------------------------------------------------------------

  function Stored(c: Class, mem: Memory, frames: seq<nat>, k: nat, w: Word): Memory
    requires Good(c) && Chain(c, mem, frames) && k < Words(c)
  {
    PageBound(c, k);
    WritePage(mem, frames[PageOf(c, k)], InPage(c, k), [w])
  }

  lemma {:induction false} StoredView(c: Class, mem: Memory, frames: seq<nat>, k: nat, w: Word)
    requires Good(c) && Chain(c, mem, frames) && k < Words(c)
    ensures var mem' := Stored(c, mem, frames, k, w);
            && Chain(c, mem', frames) && OnlyIn(mem, mem', frames)
            && View(c, mem', frames) == View(c, mem, frames)[k := w]
  {
    PageBound(c, k);
    PageSplit(c, k);
    WritePageView(c, mem, frames, PageOf(c, k), InPage(c, k), [w]);
  }

  /** Storing one word: it lies in one page. */
  method StoreWord(c: Class, mem: Memory, frames: seq<nat>, k: nat, w: Word) returns (mem': Memory)
    requires Good(c) && Chain(c, mem, frames) && k < Words(c)
    ensures Chain(c, mem', frames) && OnlyIn(mem, mem', frames)
    ensures View(c, mem', frames) == View(c, mem, frames)[k := w]
  {
    StoredView(c, mem, frames, k, w);
    PageBound(c, k);
    mem' := WritePage(mem, frames[PageOf(c, k)], InPage(c, k), [w]);
  }

  // ----- objects that straddle pages ------------------------------------------------------------------

  /** The words of object i. */
  function Object(c: Class, flat: seq<Word>, i: nat): (r: seq<Word>)
    requires Good(c) && |flat| == Words(c) && i < c.n
    ensures |r| == c.sz
  {
    ObjectFits(c, i);
    flat[Start(c, i)..Start(c, i) + c.sz]
  }

  /** An object that does not fit into its first page goes on in the next one. */
  lemma {:induction false} Straddles(c: Class, i: nat)
    requires Good(c) && i < c.n
    ensures var j, r := PageOf(c, Start(c, i)), InPage(c, Start(c, i));
            j < c.p && Start(c, i) == PageStart(c, j) + r && (r + c.sz > c.pw ==> j + 1 < c.p)
  {
    ObjectFits(c, i);
    PageSplit(c, Start(c, i));
    PageBound(c, Start(c, i));
  }

  /** The two pieces of an object that straddles pages. */
  lemma {:induction false} TwoPieces(c: Class, mem: Memory, frames: seq<nat>, i: nat, j: nat, r: nat)
    requires Good(c) && Chain(c, mem, frames) && i < c.n && j + 1 < c.p && r < c.pw < r + c.sz
    requires Start(c, i) == PageStart(c, j) + r
    ensures mem[frames[j]][r..c.pw] + mem[frames[j + 1]][0..c.sz - (c.pw - r)] == Object(c, View(c, mem, frames), i)
  {
    var first := c.pw - r;
    PageSlice(c, mem, frames, j, r, first);
    PageSlice(c, mem, frames, j + 1, 0, c.sz - first);
    SliceJoin(View(c, mem, frames), Start(c, i), first, c.sz - first);
  }

  /** The reading half of __zs_map_object, and of the direct mapping of an object in one page. */
  method ReadObject(c: Class, mem: Memory, frames: seq<nat>, i: nat) returns (buf: seq<Word>)
    requires Good(c) && Chain(c, mem, frames) && i < c.n
    ensures buf == Object(c, View(c, mem, frames), i)
  {
    Straddles(c, i);
    var j, r := PageOf(c, Start(c, i)), InPage(c, Start(c, i));
    if r + c.sz <= c.pw {
      PageSlice(c, mem, frames, j, r, c.sz);
      buf := mem[frames[j]][r..r + c.sz];
    } else {
      TwoPieces(c, mem, frames, i, j, r);
      buf := mem[frames[j]][r..c.pw] + mem[frames[j + 1]][0..c.sz - (c.pw - r)];
    }
  }

  lemma {:induction false} SliceJoin(s: seq<Word>, a: nat, x: nat, y: nat)
    requires a + x + y <= |s|
    ensures s[a..a + x] + s[a + x..a + x + y] == s[a..a + (x + y)]
  {
  }

  /** The writing half of __zs_unmap_object, and of stores through a direct mapping: the words of
      object i from word d on, which leaves out the handle if d is 1. */
  method WriteObject(c: Class, mem: Memory, frames: seq<nat>, i: nat, d: nat, data: seq<Word>) returns (mem': Memory)
    requires Good(c) && Chain(c, mem, frames) && i < c.n && d <= 1 && d + |data| == c.sz
    ensures Chain(c, mem', frames) && OnlyIn(mem, mem', frames) && Start(c, i) + d + |data| <= Words(c)
    ensures View(c, mem', frames) == Overwrite(View(c, mem, frames), Start(c, i) + d, data)
  {
    Straddles(c, i);
    var j, r := PageOf(c, Start(c, i)), InPage(c, Start(c, i));
    if r + c.sz <= c.pw {
      WritePageView(c, mem, frames, j, r + d, data);
      mem' := WritePage(mem, frames[j], r + d, data);
    } else {
      var first := c.pw - (r + d);
      mem' := WriteTwo(c, mem, frames, j, r + d, data[..first], data[first..]);
      assert data[..first] + data[first..] == data;
    }
  }

  /** Two pieces, up to the end of one page and from the start of the next. */
  method WriteTwo(c: Class, mem: Memory, frames: seq<nat>, j: nat, r: nat, one: seq<Word>, two: seq<Word>)
    returns (mem': Memory)
    requires Good(c) && Chain(c, mem, frames) && j + 1 < c.p && r + |one| == c.pw && |two| <= c.pw
    ensures Chain(c, mem', frames) && OnlyIn(mem, mem', frames) && PageStart(c, j) + r + |one + two| <= Words(c)
    ensures View(c, mem', frames) == Overwrite(View(c, mem, frames), PageStart(c, j) + r, one + two)
  {
    WritePageView(c, mem, frames, j, r, one);
    var mem1 := WritePage(mem, frames[j], r, one);
    WritePageView(c, mem1, frames, j + 1, 0, two);
    mem' := WritePage(mem1, frames[j + 1], 0, two);
    OverwriteTwice(View(c, mem, frames), PageStart(c, j) + r, one, two);
  }

  // ----- copying an object ----------------------------------------------------------------------------

  /** A cursor into an object: the page, the offset in it, and how many words of the object are
      left in the page; w words have been passed. */
  predicate Cursor(c: Class, i: nat, w: nat, j: nat, off: nat, left: nat) {
    && w <= c.sz && j < c.p && off <= c.pw
    && PageStart(c, j) + off == Start(c, i) + w
    && left == if c.sz - w <= c.pw - off then c.sz - w else c.pw - off
  }

  /** At the end of a page the cursor goes on to the next one. */
  lemma {:induction false} TurnPage(c: Class, i: nat, w: nat, j: nat, off: nat, left: nat)
    requires Good(c) && i < c.n && Cursor(c, i, w, j, off, left) && w < c.sz && off == c.pw
    ensures Cursor(c, i, w, j + 1, 0, c.sz - w)
  {
    ObjectFits(c, i);
    if j + 1 >= c.p {
      PageStartMono(c, c.p, j + 1);
    }
  }

  function Smaller(x: nat, y: nat): nat {
    if x <= y then x else y
  }

  /** The first w words of object si have been copied to object di. */
  ghost predicate CopiedUpTo(c: Class, mem: Memory, mem': Memory, sf: seq<nat>, si: nat, df: seq<nat>, di: nat, w: nat)
    requires Good(c) && Chain(c, mem, sf) && Chain(c, mem, df) && si < c.n && di < c.n && w <= c.sz
  {
    && Chain(c, mem', df) && OnlyIn(mem, mem', df) && Start(c, di) + w <= Words(c)
    && View(c, mem', df) == Overwrite(View(c, mem, df), Start(c, di), Object(c, View(c, mem, sf), si)[..w])
  }

  lemma {:induction false} CopyGrows(
    c: Class, mem: Memory, mem1: Memory, mem2: Memory, sf: seq<nat>, si: nat, df: seq<nat>, di: nat, w: nat,
    size: nat)
    requires Good(c) && Chain(c, mem, sf) && Chain(c, mem, df) && si < c.n && di < c.n && w + size <= c.sz
    requires CopiedUpTo(c, mem, mem1, sf, si, df, di, w)
    requires Chain(c, mem2, df) && OnlyIn(mem1, mem2, df)
    requires Start(c, di) + w + size <= Words(c)
    requires View(c, mem2, df) ==
               Overwrite(View(c, mem1, df), Start(c, di) + w, Object(c, View(c, mem, sf), si)[w..w + size])
    ensures CopiedUpTo(c, mem, mem2, sf, si, df, di, w + size)
  {
    var obj := Object(c, View(c, mem, sf), si);
    OverwriteTwice(View(c, mem, df), Start(c, di), obj[..w], obj[w..w + size]);
    assert obj[..w] + obj[w..w + size] == obj[..w + size];
  }

  /** One round: as much as both pages allow. */
  method CopyRound(
    c: Class, ghost mem0: Memory, mem: Memory, sf: seq<nat>, ghost si: nat, sj: nat, sOff: nat, sLeft: nat,
    df: seq<nat>, ghost di: nat, dj: nat, dOff: nat, dLeft: nat, ghost w: nat)
    returns (mem': Memory, size: nat)
    requires Good(c) && Chain(c, mem0, sf) && Chain(c, mem0, df) && Apart(df, sf) && si < c.n && di < c.n && w < c.sz
    requires Cursor(c, si, w, sj, sOff, sLeft) && Cursor(c, di, w, dj, dOff, dLeft)
    requires CopiedUpTo(c, mem0, mem, sf, si, df, di, w)
    ensures size == Smaller(sLeft, dLeft) && w + size <= c.sz && CopiedUpTo(c, mem0, mem', sf, si, df, di, w + size)
  {
    size := Smaller(sLeft, dLeft);
    ChainElsewhere(c, mem0, mem, df, sf);
    var data := mem[sf[sj]][sOff..sOff + size];
    SourceWords(c, mem0, mem, sf, si, sj, sOff, sLeft, df, di, w, data);
    mem' := WritePage(mem, df[dj], dOff, data);
    WordsArrive(c, mem0, mem, mem', sf, si, df, di, dj, dOff, dLeft, w, data);
  }

  /** What is read from the source page is the next part of the object. */
  lemma {:induction false} SourceWords(
    c: Class, mem0: Memory, mem: Memory, sf: seq<nat>, si: nat, sj: nat, sOff: nat, sLeft: nat, df: seq<nat>,
    di: nat, w: nat, data: seq<Word>)
    requires Good(c) && Chain(c, mem0, sf) && Chain(c, mem0, df) && Apart(df, sf) && si < c.n && di < c.n
    requires Cursor(c, si, w, sj, sOff, sLeft) && |data| <= sLeft && OnlyIn(mem0, mem, df) && Chain(c, mem, sf)
    requires data == mem[sf[sj]][sOff..sOff + |data|]
    ensures data == Object(c, View(c, mem0, sf), si)[w..w + |data|]
  {
    ViewElsewhere(c, mem0, mem, df, sf);
    ObjectPart(c, View(c, mem0, sf), si, w, |data|);
    PageSlice(c, mem, sf, sj, sOff, |data|);
  }

  /** What is written to the destination page carries the copy on. */
  lemma {:induction false} WordsArrive(
    c: Class, mem0: Memory, mem: Memory, mem': Memory, sf: seq<nat>, si: nat, df: seq<nat>, di: nat, dj: nat,
    dOff: nat, dLeft: nat, w: nat, data: seq<Word>)
    requires Good(c) && Chain(c, mem0, sf) && Chain(c, mem0, df) && si < c.n && di < c.n
    requires Cursor(c, di, w, dj, dOff, dLeft) && |data| <= dLeft && CopiedUpTo(c, mem0, mem, sf, si, df, di, w)
    requires mem' == WritePage(mem, df[dj], dOff, data) && data == Object(c, View(c, mem0, sf), si)[w..w + |data|]
    ensures CopiedUpTo(c, mem0, mem', sf, si, df, di, w + |data|)
  {
    WritePageView(c, mem, df, dj, dOff, data);
    CopyGrows(c, mem0, mem, mem', sf, si, df, di, w, |data|);
  }

  lemma {:induction false} ObjectPart(c: Class, flat: seq<Word>, i: nat, w: nat, size: nat)
    requires Good(c) && |flat| == Words(c) && i < c.n && w + size <= c.sz
    ensures Start(c, i) + w + size <= Words(c)
    ensures Object(c, flat, i)[w..w + size] == flat[Start(c, i) + w..Start(c, i) + w + size]
  {
    ObjectFits(c, i);
    SliceOfSlice(flat, Start(c, i), c.sz, w, size);
  }

  lemma {:induction false} SliceOfSlice(s: seq<Word>, a: nat, len: nat, w: nat, size: nat)
    requires a + len <= |s| && w + size <= len
    ensures s[a..a + len][w..w + size] == s[a + w..a + w + size]
  {
    var x := s[a..a + len];
    var y, z := x[w..w + size], s[a + w..a + w + size];
    forall i | 0 <= i < |y|
      ensures y[i] == z[i]
    {
      assert y[i] == x[w + i];
    }
  }

  /** Where the copying starts. */
  lemma {:induction false} FirstCursor(c: Class, i: nat)
    requires Good(c) && i < c.n
    ensures var j, off := PageOf(c, Start(c, i)), InPage(c, Start(c, i));
            Cursor(c, i, 0, j, off, Smaller(c.sz, c.pw - off)) && Smaller(c.sz, c.pw - off) > 0
  {
    Straddles(c, i);
  }

  lemma {:induction false} NothingCopied(c: Class, mem: Memory, sf: seq<nat>, si: nat, df: seq<nat>, di: nat)
    requires Good(c) && Chain(c, mem, sf) && Chain(c, mem, df) && si < c.n && di < c.n
    ensures CopiedUpTo(c, mem, mem, sf, si, df, di, 0)
  {
    ObjectFits(c, di);
  }

  lemma {:induction false} AllCopied(c: Class, mem: Memory, mem': Memory, sf: seq<nat>, si: nat, df: seq<nat>, di: nat)
    requires Good(c) && Chain(c, mem, sf) && Chain(c, mem, df) && si < c.n && di < c.n
    requires CopiedUpTo(c, mem, mem', sf, si, df, di, c.sz)
    ensures View(c, mem', df) == Overwrite(View(c, mem, df), Start(c, di), Object(c, View(c, mem, sf), si))
  {
    var obj := Object(c, View(c, mem, sf), si);
    assert obj[..c.sz] == obj;
  }

  /** Between two rounds: what has been copied, and where both cursors stand if there is more. */
  ghost predicate Copying(c: Class, mem: Memory, mem': Memory, sf: seq<nat>, si: nat, df: seq<nat>, di: nat, w: nat,
                          s: (nat, nat, nat), d: (nat, nat, nat))
    requires Good(c) && Chain(c, mem, sf) && Chain(c, mem, df) && si < c.n && di < c.n
  {
    && w <= c.sz && CopiedUpTo(c, mem, mem', sf, si, df, di, w)
    && (w < c.sz ==> Cursor(c, si, w, s.0, s.1, s.2) && Cursor(c, di, w, d.0, d.1, d.2) && s.2 > 0 && d.2 > 0)
  }

  /** One round of zs_object_copy. */
  method CopyStep(
    c: Class, ghost mem: Memory, mem1: Memory, sf: seq<nat>, ghost si: nat, df: seq<nat>, ghost di: nat, w: nat,
    s: (nat, nat, nat), d: (nat, nat, nat))
    returns (mem': Memory, w': nat, s': (nat, nat, nat), d': (nat, nat, nat))
    requires Good(c) && Chain(c, mem, sf) && Chain(c, mem, df) && Apart(df, sf) && si < c.n && di < c.n && w < c.sz
    requires Copying(c, mem, mem1, sf, si, df, di, w, s, d)
    ensures w < w' && Copying(c, mem, mem', sf, si, df, di, w', s', d')
  {
    var size;
    mem', size := CopyRound(c, mem, mem1, sf, si, s.0, s.1, s.2, df, di, d.0, d.1, d.2, w);
    w', s', d' := w + size, s, d;
    if w' < c.sz {
      s' := Move(c, si, s, w', size);
      d' := Move(c, di, d, w', size);
    }
  }

  /** Where a cursor starts. */
  function FirstOf(c: Class, i: nat): (nat, nat, nat)
    requires c.pw > 0
  {
    var off := InPage(c, Start(c, i));
    (PageOf(c, Start(c, i)), off, Smaller(c.sz, c.pw - off))
  }

  /** zs_object_copy: whichever of the two objects straddle a page boundary, the words of the one
      are copied to the other and nothing else is written. */
  method ObjectCopy(c: Class, mem: Memory, sf: seq<nat>, si: nat, df: seq<nat>, di: nat) returns (mem': Memory)
    requires Good(c) && Chain(c, mem, sf) && Chain(c, mem, df) && Apart(df, sf) && si < c.n && di < c.n
    ensures Chain(c, mem', df) && OnlyIn(mem, mem', df) && Start(c, di) + c.sz <= Words(c)
    ensures View(c, mem', df) == Overwrite(View(c, mem, df), Start(c, di), Object(c, View(c, mem, sf), si))
  {
    mem' := mem;
    var written, s, d := 0, FirstOf(c, si), FirstOf(c, di);
    FirstCursor(c, si);
    FirstCursor(c, di);
    NothingCopied(c, mem, sf, si, df, di);
    while written < c.sz
      invariant Copying(c, mem, mem', sf, si, df, di, written, s, d)
      decreases c.sz - written
    {
      mem', written, s, d := CopyStep(c, mem, mem', sf, si, df, di, written, s, d);
    }
    AllCopied(c, mem, mem', sf, si, df, di);
  }

  /** The cursor moves on by one chunk, to the next page if this one is used up. */
  method Move(c: Class, ghost i: nat, s: (nat, nat, nat), w: nat, size: nat) returns (s': (nat, nat, nat))
    requires Good(c) && i < c.n && 0 < size <= s.2 && size <= w < c.sz && Cursor(c, i, w - size, s.0, s.1, s.2)
    ensures Cursor(c, i, w, s'.0, s'.1, s'.2) && s'.2 > 0
  {
    s' := (s.0, s.1 + size, s.2 - size);
    if s'.1 >= c.pw {
      TurnPage(c, i, w, s'.0, s'.1, s'.2);
      s' := (s.0 + 1, 0, c.sz - w);
    }
  }
}
