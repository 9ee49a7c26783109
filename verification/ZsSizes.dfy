/** The size classes of mm/zsmalloc.c: which class serves a request, and that its chunks are large
    enough. */
module ZsSizes {
  import opened Arith
  import M = ZsMemory

  /** ZS_HANDLE_SIZE */
  const HANDLE := 8

  /** Page size, smallest class, distance between classes, longest chain of pages. */
  datatype Config = Config(page: nat, least: nat, delta: nat, chain: nat)

  predicate Good(k: Config) {
    0 < k.least <= k.page && 0 < k.delta && 0 < k.chain
  }

  /** struct size_class: size of a chunk, index of the class, pages and chunks in a zspage. */
  datatype SizeClass = SizeClass(size: nat, index: nat, pages: nat, objs: nat)

  function RoundUpDiv(x: nat, d: nat): nat
    requires d > 0
  {
    (x + d - 1) / d
  }

  lemma {:induction false} RoundUpDivIs(x: nat, d: nat)
    requires d > 0
    ensures x <= RoundUpDiv(x, d) * d < x + d
  {
    SplitMod(x + d - 1, d);
  }

  /** ZS_SIZE_CLASSES */
  function Classes(k: Config): nat
    requires Good(k)
  {
    RoundUpDiv(k.page - k.least, k.delta) + 1
  }

  /** The size for index i, before classes are merged. */
  function Nominal(k: Config, i: nat): (r: nat)
    ensures Good(k) ==> r > 0
  {
    if k.least + i * k.delta > k.page then k.page else k.least + i * k.delta
  }

  /** get_size_class_index */
  function IndexFor(k: Config, size: nat): nat
    requires Good(k)
  {
    var idx := if size > k.least then RoundUpDiv(size - k.least, k.delta) else 0;
    if Classes(k) - 1 <= idx then Classes(k) - 1 else idx
  }

  lemma {:induction false} LastIsPage(k: Config)
    requires Good(k)
    ensures Nominal(k, Classes(k) - 1) == k.page
  {
    RoundUpDivIs(k.page - k.least, k.delta);
  }

  /** The class for a size is large enough, up to the size of a page. */
  lemma {:induction false} IndexLargeEnough(k: Config, size: nat)
    requires Good(k)
    ensures IndexFor(k, size) < Classes(k)
    ensures size <= k.page ==> size <= Nominal(k, IndexFor(k, size))
    ensures size > k.page ==> IndexFor(k, size) == Classes(k) - 1
  {
    LastIsPage(k);
    if size > k.least {
      RoundUpDivIs(size - k.least, k.delta);
      var idx := RoundUpDiv(size - k.least, k.delta);
      if size > k.page && idx < Classes(k) - 1 {
        MulGap(idx, Classes(k) - 1, k.delta);
        RoundUpDivIs(k.page - k.least, k.delta);
      }
    }
  }

  /** Each index before the last names a smaller size. */
  lemma {:induction false} NominalMono(k: Config, i: nat, j: nat)
    requires i <= j
    ensures Nominal(k, i) <= Nominal(k, j)
  {
    MulMono(i, j, k.delta);
  }

  // ----- chains of pages ------------------------------------------------------------------------------

  predicate IsPowerOfTwo(x: nat)
    decreases x
  {
    x == 1 || (x > 1 && x % 2 == 0 && IsPowerOfTwo(x / 2))
  }

  /** What is left over at the end of a chain of i pages. */
  function Waste(k: Config, size: nat, i: nat): nat
    requires size > 0
  {
    i * k.page % size
  }

  /** One page for powers of two, otherwise the shortest chain with the least waste. */
  predicate BestChain(k: Config, size: nat, n: nat)
    requires size > 0
  {
    && 1 <= n <= k.chain
    && if IsPowerOfTwo(size) then n == 1
       else
         && (forall i :: 1 <= i <= k.chain ==> Waste(k, size, n) <= Waste(k, size, i))
         && (forall i :: 1 <= i < n ==> Waste(k, size, n) < Waste(k, size, i))
  }

  /** calculate_zspage_chain_size */
  method ChainSize(k: Config, size: nat) returns (n: nat)
    requires Good(k) && size > 0
    ensures BestChain(k, size, n)
  {
    n := 1;
    if IsPowerOfTwo(size) {
      return;
    }
    var least := Waste(k, size, 1);
    var i := 2;
    while i <= k.chain
      invariant 2 <= i <= k.chain + 1 && 1 <= n < i && least == Waste(k, size, n)
      invariant forall m :: 1 <= m < i ==> Waste(k, size, n) <= Waste(k, size, m)
      invariant forall m :: 1 <= m < n ==> Waste(k, size, n) < Waste(k, size, m)
    {
      if Waste(k, size, i) < least {
        least, n := Waste(k, size, i), i;
      }
      i := i + 1;
    }
  }

  // ----- the table of classes ---------------------------------------------------------------------------

  /** The number of chunks in a chain of pages. */
  function ObjsIn(k: Config, pages: nat, size: nat): nat
    requires size > 0
  {
    pages * k.page / size
  }

  /** A class as zs_create_pool makes it for its own index. */
  predicate WellMade(k: Config, x: SizeClass) {
    x.size == Nominal(k, x.index) && x.size > 0 && HasShape(k, x.size, x)
  }

  /** The zspages of x are as long, and hold as many chunks, as those for chunks of this size. */
  predicate HasShape(k: Config, size: nat, x: SizeClass)
    requires size > 0
  {
    BestChain(k, size, x.pages) && x.objs == ObjsIn(k, x.pages, size)
  }

  predicate SameShape(x: SizeClass, y: SizeClass) {
    x.pages == y.pages && x.objs == y.objs
  }

  /** The class at index i: made for i or for a larger index, and its zspages are as those for i. */
  ghost predicate Serves(k: Config, x: SizeClass, i: nat)
    requires Good(k)
  {
    i <= x.index < Classes(k) && WellMade(k, x) && Nominal(k, i) <= x.size && HasShape(k, Nominal(k, i), x)
  }

  /** Entry m of the part of the table from index i on: a class of its own, unless it has the shape
      of the next one and is that. */
  ghost predicate EntryFits(k: Config, table: seq<SizeClass>, i: nat, m: nat)
    requires Good(k)
  {
    && m < |table| && Serves(k, table[m], i + m)
    && table[m].index - i < |table| && table[table[m].index - i] == table[m]
    && (if m + 1 < |table| && SameShape(table[m], table[m + 1]) then table[m] == table[m + 1]
        else table[m].index == i + m)
  }

  ghost predicate TableFrom(k: Config, table: seq<SizeClass>, i: nat)
    requires Good(k)
  {
    i + |table| == Classes(k) && forall m :: 0 <= m < |table| ==> EntryFits(k, table, i, m)
  }

  lemma {:induction false} Prepend(k: Config, table: seq<SizeClass>, i: nat, x: SizeClass)
    requires Good(k) && TableFrom(k, table, i + 1) && Serves(k, x, i)
    requires if table != [] && SameShape(x, table[0]) then x == table[0] else x.index == i
    ensures TableFrom(k, [x] + table, i)
  {
    var t := [x] + table;
    forall m | 0 <= m < |t|
      ensures EntryFits(k, t, i, m)
    {
      if m > 0 {
        assert EntryFits(k, table, i + 1, m - 1);
      } else if x.index != i {
        assert EntryFits(k, table, i + 1, 0);
      }
    }
  }

  /** A class of its own for index i. */
  method MakeClass(k: Config, i: nat) returns (x: SizeClass)
    requires Good(k) && i < Classes(k)
    ensures x.index == i && Serves(k, x, i)
  {
    var size := Nominal(k, i);
    var pages := ChainSize(k, size);
    x := SizeClass(size, i, pages, ObjsIn(k, pages, size));
  }

  /** The loop of zs_create_pool, from the largest class down; a class of the same shape as the one
      before it is merged with it. */
  method CreateClasses(k: Config) returns (table: seq<SizeClass>)
    requires Good(k)
    ensures TableFrom(k, table, 0)
  {
    table := [];
    var i := Classes(k);
    while i > 0
      invariant 0 <= i <= Classes(k) && TableFrom(k, table, i)
    {
      i := i - 1;
      var x := MakeClass(k, i);
      if table != [] && SameShape(x, table[0]) {
        assert EntryFits(k, table, i + 1, 0);
        NominalMono(k, i, i + 1);
        x := table[0];
      }
      Prepend(k, table, i, x);
      table := [x] + table;
    }
  }

  /** A request is served by the same class as a larger one exactly if the zspages for all indices
      between them have one shape. */
  lemma {:induction false} MergedWhenAlike(k: Config, table: seq<SizeClass>, m: nat, n: nat)
    requires Good(k) && TableFrom(k, table, 0) && m <= n < |table|
    ensures table[m] == table[n] <==> forall j :: m <= j <= n ==> SameShape(table[j], table[n])
    decreases n - m
  {
    if m < n {
      assert EntryFits(k, table, 0, m);
      MergedWhenAlike(k, table, m + 1, n);
      if table[m] == table[n] {
        assert EntryFits(k, table, 0, n);
        assert table[m].index != m;
      }
    }
  }

  /** One chunk in one page: the handle is kept outside the chunk. */
  predicate Huge(x: SizeClass) {
    x.pages == 1 && x.objs == 1
  }

  /** What a user can store in a chunk. */
  function Capacity(x: SizeClass): nat
    requires x.size >= HANDLE
  {
    if Huge(x) then x.size else x.size - HANDLE
  }

  /** Every request that zs_malloc accepts gets a chunk with room for it. */
  lemma {:induction false} ChunkHolds(k: Config, table: seq<SizeClass>, size: nat)
    requires Good(k) && k.least >= HANDLE && IsPowerOfTwo(k.page) && 0 < size <= k.page && TableFrom(k, table, 0)
    ensures IndexFor(k, size + HANDLE) < |table|
    ensures table[IndexFor(k, size + HANDLE)].size >= HANDLE && size <= Capacity(table[IndexFor(k, size + HANDLE)])
  {
    var i := IndexFor(k, size + HANDLE);
    IndexLargeEnough(k, size + HANDLE);
    assert EntryFits(k, table, 0, i);
    if size + HANDLE > k.page {
      LastIsPage(k);
      DivMod(k.page, k.page, 1, 0);
    }
  }

  // ----- the layout of a class ----------------------------------------------------------------------------

  lemma {:induction false} StartIs(c: M.Class, i: nat)
    ensures M.Start(c, i) == i * c.sz
    decreases i
  {
    if i > 0 {
      StartIs(c, i - 1);
      assert i * c.sz == (i - 1) * c.sz + c.sz;
    }
  }

  lemma {:induction false} PageStartIs(c: M.Class, j: nat)
    ensures M.PageStart(c, j) == j * c.pw
    decreases j
  {
    if j > 0 {
      PageStartIs(c, j - 1);
      assert j * c.pw == (j - 1) * c.pw + c.pw;
    }
  }

  lemma {:induction false} EighthsDivide(pages: nat, pw: nat, sz: nat)
    requires sz > 0
    ensures pages * (8 * pw) / (8 * sz) == pages * pw / sz
  {
    var q, r := pages * pw / sz, pages * pw % sz;
    SplitMod(pages * pw, sz);
    assert pages * (8 * pw) == 8 * (pages * pw);
    assert 8 * (q * sz + r) == q * (8 * sz) + 8 * r;
    DivMod(pages * (8 * pw), 8 * sz, q, 8 * r);
  }

  /** The zspages of a class, in words, are laid out as the allocator needs it. */
  lemma {:induction false} ClassGeometry(k: Config, x: SizeClass, pw: nat, sz: nat)
    requires Good(k) && WellMade(k, x) && k.page == 8 * pw && x.size == 8 * sz
    ensures M.Good(M.Class(pw, sz, x.pages, x.objs))
  {
    var c := M.Class(pw, sz, x.pages, x.objs);
    EighthsDivide(x.pages, pw, sz);
    SplitMod(x.pages * pw, sz);
    StartIs(c, c.n);
    StartIs(c, c.n + 1);
    PageStartIs(c, c.p);
    assert (c.n + 1) * sz == c.n * sz + sz;
    MulMono(1, x.pages, pw);
    DivLower(x.pages * pw, sz, 1);
  }
}
