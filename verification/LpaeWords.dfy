/** The words that drivers/iommu/qcom-io-pgtable-arm.c keeps in memory, over whole operations: what is
    in memory is a function of the tree of descriptors, every write to memory is an update of the tree,
    and after mapping, unmapping and mapping a scatterlist the words still translate as the tree does. */
module LpaeWords {
  import opened Arith
  import opened LpaeTree
  import opened LpaeUpdate
  import opened LpaeSpec
  import opened LpaeUnmap
  import opened LpaeLast
  import opened LpaePte
  import opened LpaePgtable
  import opened LpaeSg

  /** The granule is 2^g bytes; NSTABLE and SW_SYNC are set in all table descriptors or in none. */
  datatype Format = Format(g: nat, ns: bool, sync: bool)

  /** Attribute bits, as arm_lpae_prot_to_pte makes them. */
  predicate IsProt(prot: nat) {
    prot < Pow2(64) && And(ToWord(prot), Attributes()) == ToWord(prot)
  }

  /** The word for a descriptor in a table of level l. */
  function Encode(f: Format, l: nat, p: Pte): Word {
    match p
    case Zero => NoBits()
    case Leaf(phys, prot) => LeafWord(f.g, l, ToWord(phys), ToWord(prot))
    case Table(addr, count) => TableWord(f.g, ToWord(addr), ToWord(count), f.ns, f.sync)
  }

  predicate PteFits(f: Format, l: nat, p: Pte)
    requires Granule(f.g)
  {
    match p
    case Zero => true
    case Leaf(phys, prot) => phys < Pow2(OutputBits(f.g)) && IsProt(prot)
    case Table(addr, count) => l < LAST && addr < Pow2(48 - f.g) && count < COUNTS
  }

  lemma {:induction false} LeafStands(f: Format, l: nat, phys: nat, prot: nat)
    requires Granule(f.g) && phys < Pow2(OutputBits(f.g)) && IsProt(prot)
    ensures StandsFor(f.g, l, LeafWord(f.g, l, ToWord(phys), ToWord(prot)), Leaf(phys, prot))
  {
    LeafRoundTrip(f.g, l, phys, ToWord(prot));
    NumberOfBits(prot, 64);
    SmallMod(prot, Pow2(64));
  }

  lemma {:induction false} TableStands(f: Format, l: nat, addr: nat, count: nat)
    requires Granule(f.g) && l < LAST && addr < Pow2(48 - f.g) && count < COUNTS
    ensures StandsFor(f.g, l, TableWord(f.g, ToWord(addr), ToWord(count), f.ns, f.sync), Table(addr, count))
  {
    TableRoundTrip(f.g, l, addr, count, f.ns, f.sync);
    SmallMod(count, COUNTS);
  }

  lemma {:induction false} EncodeStands(f: Format, l: nat, p: Pte)
    requires Granule(f.g) && PteFits(f, l, p)
    ensures StandsFor(f.g, l, Encode(f, l, p), p)
  {
    match p
    case Zero =>
    case Leaf(phys, prot) => LeafStands(f, l, phys, prot);
    case Table(addr, count) => TableStands(f, l, addr, count);
  }

  function EncodedTable(f: Format, l: nat, ptes: seq<Pte>): (r: seq<Word>)
    ensures |r| == |ptes| && forall i :: 0 <= i < |ptes| ==> r[i] == Encode(f, l, ptes[i])
  {
    seq(|ptes|, i requires 0 <= i < |ptes| => Encode(f, l, ptes[i]))
  }

  /** What is in memory for the tree. */
  function Encoded(f: Format, h: Heap): (r: map<nat, seq<Word>>)
    requires h.tables.Keys == h.place.Keys
    ensures r.Keys == h.tables.Keys
    ensures forall a :: a in h.tables ==> r[a] == EncodedTable(f, h.place[a].lvl, h.tables[a])
  {
    map a | a in h.tables :: EncodedTable(f, h.place[a].lvl, h.tables[a])
  }

  ghost predicate EntryEncodes(f: Format, h: Heap, a: nat, i: nat)
    requires Granule(f.g) && a in h.tables && a in h.place && i < |h.tables[a]|
  {
    PteFits(f, h.place[a].lvl, h.tables[a][i])
  }

  ghost predicate Encodes(f: Format, h: Heap)
    requires Granule(f.g)
  {
    && h.tables.Keys == h.place.Keys
    && forall a, i {:trigger EntryEncodes(f, h, a, i)} :: a in h.tables && 0 <= i < |h.tables[a]| ==>
         EntryEncodes(f, h, a, i)
  }

  lemma {:induction false} EncodedRepresents(f: Format, h: Heap)
    requires Granule(f.g) && Encodes(f, h)
    ensures Represents(f.g, Encoded(f, h), h)
  {
    forall a, i | a in h.tables && 0 <= i < |h.tables[a]|
      ensures EntryStands(f.g, Encoded(f, h), h, a, i)
    {
      assert EntryEncodes(f, h, a, i);
      EncodeStands(f, h.place[a].lvl, h.tables[a][i]);
    }
  }

  // ----- writes ---------------------------------------------------------------------------------------------

  /** Writing the word of a descriptor. */
  lemma {:induction false} PutEncoded(f: Format, h: Heap, a: nat, i: nat, p: Pte)
    requires h.tables.Keys == h.place.Keys && a in h.tables && i < |h.tables[a]|
    ensures Encoded(f, PutPte(h, a, i, p)) == PutWord(Encoded(f, h), a, i, Encode(f, h.place[a].lvl, p))
  {
    PutInTable(f, h.place[a].lvl, h.tables[a], i, p);
  }

  lemma {:induction false} PutInTable(f: Format, l: nat, ptes: seq<Pte>, i: nat, p: Pte)
    requires i < |ptes|
    ensures var ws := EncodedTable(f, l, ptes);
            EncodedTable(f, l, ptes[i := p]) == ws[..i] + [Encode(f, l, p)] + ws[i + 1..]
  {
  }

  lemma {:induction false} SameCountBits(w: Word, v: Word, v': Word)
    requires forall i :: 0 <= i < 13 ==> v'[i] == v[i]
    ensures WithCount(w, v') == WithCount(w, v)
  {
    forall i | 0 <= i < 64
      ensures WithCount(w, v')[i] == WithCount(w, v)[i]
    {
      WithCountBit(w, v, i);
      WithCountBit(w, v', i);
    }
  }

  /** A count set over another one. */
  lemma {:induction false} Recount(g: nat, x: Word, v: Word, v': Word, ns: bool, sync: bool)
    ensures WithCount(TableWord(g, x, v, ns, sync), v') == TableWord(g, x, v', ns, sync)
  {
    var u := Uncounted(g, x, ns);
    forall i | 0 <= i < 64
      ensures WithCount(TableWord(g, x, v, ns, sync), v')[i] == TableWord(g, x, v', ns, sync)[i]
    {
      WithCountBit(u, v, i);
      WithCountBit(u, v', i);
      WithCountBit(TableWord(g, x, v, ns, sync), v', i);
    }
  }

  lemma {:induction false} BitsMod(v: int, n: nat, k: nat)
    requires k <= n
    ensures Bits(v % Pow2(n), k) == Bits(v, k)
    decreases k
  {
    if k > 0 {
      HalfMod(v, Pow2(n - 1));
      BitsMod(v / 2, n - 1, k - 1);
      var r := v / 2 % Pow2(n - 1);
      DivMod(v % Pow2(n), 2, r, v % 2);
    }
  }

  lemma {:induction false} LowBitsOfMod(v: int, i: nat)
    requires i < 13
    ensures ToWord(v % COUNTS)[i] == ToWord(v)[i]
  {
    assert Pow2(13) == COUNTS;
    BitsMod(v, 13, 13);
    FewerBits(v, 13, 64);
    FewerBits(v % COUNTS, 13, 64);
    assert Bits(v, 64)[..13][i] == Bits(v % COUNTS, 64)[..13][i];
  }

  lemma {:induction false} CountOfTableWord(f: Format, addr: nat, count: nat)
    requires count < COUNTS
    ensures TblCnt(Encode(f, 0, Table(addr, count))) == count
  {
    TableCount(f.g, ToWord(addr), count, f.ns, f.sync);
    SmallMod(count, COUNTS);
  }

  /** iopte_tblcnt_add and iopte_tblcnt_sub write the word of the new count. */
  lemma {:induction false} CountEncoded(f: Format, l: nat, addr: nat, count: nat, n: int)
    requires count < COUNTS
    ensures Encode(f, l, Table(addr, (count + n) % COUNTS)) == TblCntAdd(Encode(f, l, Table(addr, count)), n)
  {
    var w, v := Encode(f, l, Table(addr, count)), count + n;
    CountOfTableWord(f, addr, count);
    Recount(f.g, ToWord(addr), ToWord(count), ToWord(v), f.ns, f.sync);
    Recount(f.g, ToWord(addr), ToWord(count), ToWord(v % COUNTS), f.ns, f.sync);
    forall i | 0 <= i < 13
      ensures ToWord(v % COUNTS)[i] == ToWord(v)[i]
    {
      LowBitsOfMod(v, i);
    }
    SameCountBits(w, ToWord(v), ToWord(v % COUNTS));
  }

  /** arm_lpae_install_table, after the new table has been filled. */
  lemma {:induction false} InstallEncoded(
    c: Config, f: Format, h: Heap, a: nat, i: nat, t: nat, ptes: seq<Pte>, count: nat)
    requires h.tables.Keys == h.place.Keys && a in h.tables && i < |h.tables[a]| && i < c.e && t !in h.tables
    ensures Encoded(f, Install(c, h, a, i, t, ptes, count)) ==
            PutWord(Encoded(f, h), a, i, Encode(f, h.place[a].lvl, Table(t, count)))
              [t := EncodedTable(f, h.place[a].lvl + 1, ptes)]
  {
    PutEncoded(f, h, a, i, Table(t, count));
    var w := Encoded(f, Install(c, h, a, i, t, ptes, count));
    var w' := PutWord(Encoded(f, h), a, i, Encode(f, h.place[a].lvl, Table(t, count)))
      [t := EncodedTable(f, h.place[a].lvl + 1, ptes)];
    assert w[a] == Encoded(f, PutPte(h, a, i, Table(t, count)))[a];
    assert w.Keys == w'.Keys;
  }

  /** Tables that are freed leave memory. */
  lemma {:induction false} FreeEncoded(f: Format, h: Heap, gone: set<nat>)
    requires h.tables.Keys == h.place.Keys
    ensures Encoded(f, Heap(h.tables - gone, h.place - gone, h.pool + gone)) == Encoded(f, h) - gone
  {
  }

  // ----- whole operations -----------------------------------------------------------------------------------

  predicate OutputFits(g: nat, t: Translation)
    requires Granule(g)
  {
    t.Phys? ==> t.addr < Pow2(OutputBits(g)) && IsProt(t.prot)
  }

  /** Every address translates to memory that a descriptor can name. */
  ghost predicate OutputsFit(c: Config, g: nat, h: Heap)
    requires c.e > 0 && c.s <= LAST && Granule(g)
  {
    forall x: nat {:trigger Translate(c, h, x)} :: InRange(c, x) ==> OutputFits(g, Translate(c, h, x))
  }

  /** Every page that holds or may hold a table can be named by a table descriptor. */
  predicate PagesFit(g: nat, h: Heap)
    requires Granule(g)
  {
    forall t :: t in h.pool + h.tables.Keys ==> t < Pow2(48 - g)
  }

  /** The first address of an entry. */
  lemma {:induction false} FirstAddress(c: Config, h: Heap, a: nat, i: nat) returns (x: nat)
    requires Inv(c, h) && a in h.tables && i < |h.tables[a]|
    ensures h.place[a].lvl <= LAST && Covers(c, h, a, x) && Index(c, x, h.place[a].lvl) == i
    ensures Off(c, x, h.place[a].lvl) == 0 && InRange(c, x)
  {
    var l, q := h.place[a].lvl, Child(c, h.place[a].num, i);
    x := Span(c, q, l);
    RegionIs(c, x, l, q);
    AlignedOff(c, x, l);
    CoversInRange(c, h, a, x);
  }

  lemma {:induction false} EntryFitsWord(c: Config, f: Format, h: Heap, a: nat, i: nat)
    requires Granule(f.g) && Inv(c, h) && OutputsFit(c, f.g, h) && PagesFit(f.g, h) && a in h.tables
    requires i < |h.tables[a]|
    ensures PteFits(f, h.place[a].lvl, h.tables[a][i])
  {
    assert EntryFits(c, h, a, i);
    if h.tables[a][i].Leaf? {
      var x := FirstAddress(c, h, a, i);
      WalkReaches(c, h, a, x);
      assert OutputFits(f.g, Translate(c, h, x));
    } else if h.tables[a][i].Table? {
      assert h.tables[a][i].addr in h.pool + h.tables.Keys;
    }
  }

  /** The tree is in order, and its outputs and pages fit. */
  ghost predicate InMemory(c: Config, f: Format, h: Heap) {
    Granule(f.g) && Inv(c, h) && OutputsFit(c, f.g, h) && PagesFit(f.g, h)
  }

  /** What a walk of the words in memory gives for x. */
  function Hardware(c: Config, f: Format, h: Heap, x: nat): Translation
    requires c.e > 0 && c.s <= LAST && h.tables.Keys == h.place.Keys
  {
    WalkWords(c, f.g, Encoded(f, h), c.root, c.s, x)
  }

  /** Then the words are those of the tree, and translate as it does. */
  lemma {:induction false} TreeRepresented(c: Config, f: Format, h: Heap)
    requires InMemory(c, f, h)
    ensures Represents(f.g, Encoded(f, h), h)
    ensures forall x :: Hardware(c, f, h, x) == Translate(c, h, x)
  {
    forall a, i | a in h.tables && 0 <= i < |h.tables[a]|
      ensures EntryEncodes(f, h, a, i)
    {
      EntryFitsWord(c, f, h, a, i);
    }
    EncodedRepresents(f, h);
    forall x
      ensures Hardware(c, f, h, x) == Translate(c, h, x)
    {
      WordsTranslate(c, f.g, Encoded(f, h), h, x);
    }
  }

  lemma {:induction false} MappedFits(c: Config, g: nat, h: Heap, h': Heap, iova: nat, len: nat, paddr: nat, prot: nat)
    requires c.e > 0 && c.s <= LAST && Granule(g) && OutputsFit(c, g, h) && Mapped(c, h, h', iova, len, paddr, prot)
    requires len > 0 ==> paddr + len <= Pow2(OutputBits(g)) && IsProt(prot)
    ensures OutputsFit(c, g, h')
  {
    forall x: nat | InRange(c, x)
      ensures OutputFits(g, Translate(c, h', x))
    {
      assert OutputFits(g, Translate(c, h, x));
    }
  }

  lemma {:induction false} SameFits(c: Config, g: nat, h: Heap, h': Heap)
    requires c.e > 0 && c.s <= LAST && Granule(g) && OutputsFit(c, g, h) && SameMap(c, h, h')
    ensures OutputsFit(c, g, h')
  {
    forall x: nat | InRange(c, x)
      ensures OutputFits(g, Translate(c, h', x))
    {
      assert OutputFits(g, Translate(c, h, x));
    }
  }

  lemma {:induction false} UnmappedFits(c: Config, g: nat, h: Heap, h': Heap, iova: nat, len: nat)
    requires c.e > 0 && c.s <= LAST && Granule(g) && OutputsFit(c, g, h) && Unmapped(c, h, h', iova, len)
    ensures OutputsFit(c, g, h')
  {
    forall x: nat | InRange(c, x)
      ensures OutputFits(g, Translate(c, h', x))
    {
      assert OutputFits(g, Translate(c, h, x));
    }
  }

  lemma {:induction false} ListFits(
    c: Config, g: nat, h: Heap, h': Heap, iova: nat, pages: seq<nat>, prot: nat, oas: nat)
    requires c.e > 0 && c.s <= LAST && Granule(g) && OutputsFit(c, g, h) && PagesMapped(c, h, h', iova, pages, prot)
    requires AllInOutput(pages, oas) && oas <= Pow2(OutputBits(g)) && IsProt(prot)
    ensures OutputsFit(c, g, h')
  {
    forall x: nat | InRange(c, x)
      ensures OutputFits(g, Translate(c, h', x))
    {
      assert OutputFits(g, Translate(c, h, x));
    }
  }

  /** The walk of the words gives the run for exactly its addresses, and what it gave for the others. */
  ghost predicate HardwareMapped(
    c: Config, f: Format, h: Heap, h': Heap, iova: nat, len: nat, paddr: nat, prot: nat)
    requires c.e > 0 && c.s <= LAST && h.tables.Keys == h.place.Keys && h'.tables.Keys == h'.place.Keys
  {
    forall x: nat {:trigger Hardware(c, f, h', x)} :: InRange(c, x) ==>
      Hardware(c, f, h', x) ==
      if iova <= x < iova + len then Phys(paddr + (x - iova), prot) else Hardware(c, f, h, x)
  }

  /** qcom_arm_lpae_map_pages, as the hardware sees it.  The code compares the first address of the run
      with the output range; the words are right if the last one lies in it too. */
  method MapPagesInMemory(
    pt: PageTable, ghost f: Format, iova: nat, paddr: nat, k: nat, pgcount: nat, prot: nat, access: bool)
    returns (r: MapResult, mapped: nat)
    requires InMemory(pt.c, f, pt.State()) && pt.c.s <= k <= LAST && Aligned(pt.c, iova, k)
    requires k == pt.c.s ==> Region(pt.c, iova, k) + pgcount <= pt.c.r
    modifies pt`tables, pt`pool, pt`place
    ensures pt.Valid()
    ensures (mapped > 0 ==> paddr + mapped <= Pow2(OutputBits(f.g)) && IsProt(prot)) ==>
              && InMemory(pt.c, f, pt.State()) && Represents(f.g, Encoded(f, pt.State()), pt.State())
              && HardwareMapped(pt.c, f, old(pt.State()), pt.State(), iova, mapped, paddr, prot)
  {
    ghost var c, h := pt.c, pt.State();
    TreeRepresented(c, f, h);
    r, mapped := pt.MapPages(iova, paddr, k, pgcount, prot, access);
    if mapped > 0 ==> paddr + mapped <= Pow2(OutputBits(f.g)) && IsProt(prot) {
      AfterMapping(c, f, h, pt.State(), iova, mapped, paddr, prot);
    }
  }

  lemma {:induction false} AfterMapping(
    c: Config, f: Format, h: Heap, h': Heap, iova: nat, len: nat, paddr: nat, prot: nat)
    requires InMemory(c, f, h) && Inv(c, h') && SamePages(h, h')
    requires (len > 0 && Mapped(c, h, h', iova, len, paddr, prot)) || (len == 0 && SameMap(c, h, h'))
    requires len > 0 ==> paddr + len <= Pow2(OutputBits(f.g)) && IsProt(prot)
    ensures InMemory(c, f, h') && Represents(f.g, Encoded(f, h'), h')
    ensures HardwareMapped(c, f, h, h', iova, len, paddr, prot)
  {
    if len > 0 {
      MappedFits(c, f.g, h, h', iova, len, paddr, prot);
    } else {
      SameFits(c, f.g, h, h');
    }
    TreeRepresented(c, f, h);
    TreeRepresented(c, f, h');
  }

  /** qcom_arm_lpae_unmap_pages, as the hardware sees it: tables that are freed and blocks that are split
      included. */
  method UnmapPagesInMemory(pt: PageTable, ghost f: Format, iova: nat, k: nat, pgcount: nat) returns (unmapped: nat)
    requires InMemory(pt.c, f, pt.State()) && pt.c.s <= k <= LAST && Aligned(pt.c, iova, k)
    requires k == pt.c.s ==> Region(pt.c, iova, k) + pgcount <= pt.c.r
    modifies pt`tables, pt`pool, pt`place
    ensures k < LAST || SafeToUnmap(pt.c, old(pt.State()), iova, pgcount) ==>
              && InMemory(pt.c, f, pt.State()) && Represents(f.g, Encoded(f, pt.State()), pt.State())
              && HardwareUnmapped(pt.c, f, old(pt.State()), pt.State(), iova, unmapped)
  {
    ghost var c, h := pt.c, pt.State();
    unmapped := pt.UnmapPages(iova, k, pgcount);
    if k < LAST || SafeToUnmap(c, h, iova, pgcount) {
      AfterUnmapping(c, f, h, pt.State(), iova, unmapped);
    }
  }

  ghost predicate HardwareUnmapped(c: Config, f: Format, h: Heap, h': Heap, iova: nat, len: nat)
    requires c.e > 0 && c.s <= LAST && h.tables.Keys == h.place.Keys && h'.tables.Keys == h'.place.Keys
  {
    forall x: nat {:trigger Hardware(c, f, h', x)} :: InRange(c, x) ==>
      Hardware(c, f, h', x) == if iova <= x < iova + len then Fault else Hardware(c, f, h, x)
  }

  lemma {:induction false} AfterUnmapping(c: Config, f: Format, h: Heap, h': Heap, iova: nat, len: nat)
    requires InMemory(c, f, h) && Inv(c, h') && SamePages(h, h') && Unmapped(c, h, h', iova, len)
    ensures InMemory(c, f, h') && Represents(f.g, Encoded(f, h'), h') && HardwareUnmapped(c, f, h, h', iova, len)
  {
    UnmappedFits(c, f.g, h, h', iova, len);
    TreeRepresented(c, f, h);
    TreeRepresented(c, f, h');
  }

  /** qcom_arm_lpae_map_sg, as the hardware sees it; here the code compares the whole of each stretch with
      the output range. */
  method MapSgInMemory(
    pt: PageTable, ghost f: Format, b: nat, sizes: seq<bool>, iova: nat, list: seq<Entry>, prot: nat, access: bool)
    returns (r: MapResult, mapped: nat)
    requires InMemory(pt.c, f, pt.State()) && GoodSizes(pt.c, b, sizes)
    requires pt.oas <= Pow2(OutputBits(f.g)) && IsProt(prot)
    modifies pt`tables, pt`pool, pt`place
    ensures mapped <= |Pages(list, |list|)|
    ensures InMemory(pt.c, f, pt.State()) && Represents(f.g, Encoded(f, pt.State()), pt.State())
    ensures access ==> HardwareList(pt.c, f, old(pt.State()), pt.State(), iova, Pages(list, |list|)[..mapped], prot)
  {
    ghost var c, h, why := pt.c, pt.State(), Reason(pt.State(), pt.State(), 0, 0, 0, 0, 0);
    r, mapped, why := MapSg(pt, b, sizes, iova, list, prot, access);
    if access {
      AfterList(c, f, pt.oas, h, pt.State(), iova, Pages(list, |list|)[..mapped], prot);
    } else {
      TreeRepresented(c, f, h);
    }
  }

  ghost predicate HardwareList(c: Config, f: Format, h: Heap, h': Heap, iova: nat, pages: seq<nat>, prot: nat)
    requires c.e > 0 && c.s <= LAST && h.tables.Keys == h.place.Keys && h'.tables.Keys == h'.place.Keys
  {
    forall x: nat {:trigger Hardware(c, f, h', x)} :: InRange(c, x) ==>
      Hardware(c, f, h', x) ==
      if iova <= x < iova + |pages| then Phys(pages[x - iova], prot) else Hardware(c, f, h, x)
  }

  lemma {:induction false} AfterList(
    c: Config, f: Format, oas: nat, h: Heap, h': Heap, iova: nat, pages: seq<nat>, prot: nat)
    requires InMemory(c, f, h) && SoFar(c, oas, h, h', iova, pages, prot, true)
    requires oas <= Pow2(OutputBits(f.g)) && IsProt(prot)
    ensures InMemory(c, f, h') && Represents(f.g, Encoded(f, h'), h')
    ensures HardwareList(c, f, h, h', iova, pages, prot)
  {
    ListFits(c, f.g, h, h', iova, pages, prot, oas);
    TreeRepresented(c, f, h);
    TreeRepresented(c, f, h');
  }
}
