/** Descriptors as the 64-bit words that drivers/iommu/qcom-io-pgtable-arm.c keeps in memory
    (section D8.3 of Arm ARM DDI 0487, with a child count in ignored bits of table descriptors), and
    what the descriptors of the page-table model are of them. */
module LpaePte {
  import opened Arith
  import opened LpaeTree
  import opened LpaeUpdate

  /** A word, the bit of least value first. */
  type Word = w: seq<bool> | |w| == 64 witness seq(64, i => false)

  // ----- words as numbers -------------------------------------------------------------------------------

  function Number(b: seq<bool>): nat {
    if b == [] then 0 else (if b[0] then 1 else 0) + 2 * Number(b[1..])
  }

  /** The lowest n bits of a number, in two's complement if it is negative. */
  function Bits(v: int, n: nat): (b: seq<bool>)
    ensures |b| == n
    decreases n, v
  {
    if n == 0 then [] else [v % 2 == 1] + Bits(v / 2, n - 1)
  }

  function ToWord(v: int): Word {
    Bits(v, 64)
  }

  lemma HalfMod(v: int, d: nat)
    requires d > 0
    ensures v % (2 * d) == v % 2 + 2 * (v / 2 % d)
  {
    var q := v / 2 / d;
    assert v / 2 == q * d + v / 2 % d;
    assert (2 * d) * q == 2 * (q * d);
    DivMod(v, 2 * d, q, v % 2 + 2 * (v / 2 % d));
  }

  lemma {:induction false} NumberOfBits(v: int, n: nat)
    ensures Number(Bits(v, n)) == v % Pow2(n)
    decreases n
  {
    if n > 0 {
      NumberOfBits(v / 2, n - 1);
      assert Bits(v, n)[1..] == Bits(v / 2, n - 1);
      HalfMod(v, Pow2(n - 1));
    }
  }

  lemma {:induction false} FewerBits(v: int, n: nat, m: nat)
    requires n <= m
    ensures Bits(v, m)[..n] == Bits(v, n)
    decreases n
  {
    if n > 0 {
      FewerBits(v / 2, n - 1, m - 1);
      assert Bits(v, m)[..n] == [v % 2 == 1] + Bits(v / 2, m - 1)[..n - 1];
    }
  }

  lemma {:induction false} NumberAppend(b: seq<bool>, z: seq<bool>)
    requires forall i :: 0 <= i < |z| ==> !z[i]
    ensures Number(b + z) == Number(b)
    decreases |b| + |z|
  {
    if b != [] {
      assert (b + z)[1..] == b[1..] + z;
      NumberAppend(b[1..], z);
    } else if z != [] {
      assert b + z == z && ([] + z[1..]) == z[1..];
      NumberAppend([], z[1..]);
    }
  }

  /** A word with the lowest n bits of v and no other. */
  lemma {:induction false} LowBits(w: Word, v: int, n: nat)
    requires n <= 64 && forall i :: 0 <= i < 64 ==> w[i] == (i < n && ToWord(v)[i])
    ensures Number(w) == v % Pow2(n)
  {
    FewerBits(v, n, 64);
    assert w == w[..n] + w[n..];
    assert w[..n] == Bits(v, 64)[..n];
    NumberAppend(w[..n], w[n..]);
    NumberOfBits(v, n);
  }

  lemma {:induction false} NumberBound(b: seq<bool>, n: nat)
    requires forall i :: n <= i < |b| ==> !b[i]
    ensures Number(b) < Pow2(n)
    decreases |b|
  {
    if b != [] {
      NumberBound(b[1..], if n == 0 then 0 else n - 1);
    }
  }

  lemma {:induction false} HighBits(v: nat, n: nat, m: nat, i: nat)
    requires v < Pow2(n) && n <= i < m
    ensures !Bits(v, m)[i]
    decreases i
  {
    if i > 0 {
      HighBits(v / 2, if n == 0 then 0 else n - 1, m - 1, i - 1);
    }
  }

  // ----- operators on words -----------------------------------------------------------------------------

  function And(a: Word, b: Word): Word {
    seq(64, i requires 0 <= i < 64 => a[i] && b[i])
  }

  function Or(a: Word, b: Word): Word {
    seq(64, i requires 0 <= i < 64 => a[i] || b[i])
  }

  function Not(a: Word): Word {
    seq(64, i requires 0 <= i < 64 => !a[i])
  }

  function Shl(a: Word, n: nat): Word {
    seq(64, i requires 0 <= i < 64 => i >= n && a[i - n])
  }

  function Shr(a: Word, n: nat): Word {
    seq(64, i requires 0 <= i < 64 => i + n < 64 && a[i + n])
  }

  function NoBits(): Word {
    seq(64, i => false)
  }

  /** GENMASK_ULL */
  function Mask(hi: nat, lo: nat): Word {
    seq(64, i requires 0 <= i < 64 => lo <= i <= hi)
  }

  /** FIELD_GET */
  function Get(hi: nat, lo: nat, w: Word): Word {
    Shr(And(w, Mask(hi, lo)), lo)
  }

  /** FIELD_PREP */
  function Prep(hi: nat, lo: nat, v: Word): Word {
    And(Shl(v, lo), Mask(hi, lo))
  }

  // ----- the parts of a descriptor ----------------------------------------------------------------------

  /** IOPTE_RESERVED_MASK */
  function Reserved(): Word {
    Or(Mask(54, 52), Mask(11, 2))
  }

  /** ARM_LPAE_PTE_ATTR_MASK: without the contiguous bit, bit 52 */
  function Attributes(): Word {
    Or(Mask(11, 2), Mask(54, 53))
  }

  /** iopte_val */
  function Val(w: Word): Word {
    And(w, Not(Reserved()))
  }

  function CountField(w: Word): Word {
    Or(Prep(12, 10, Get(54, 52, w)), Prep(9, 0, Get(11, 2, w)))
  }

  function WithCount(w: Word, v: Word): Word {
    Or(Val(w), Or(Prep(54, 52, Get(12, 10, v)), Prep(11, 2, Get(9, 0, v))))
  }

  /** iopte_tblcnt */
  function TblCnt(w: Word): nat {
    Number(CountField(w))
  }

  /** iopte_tblcnt_set */
  function TblCntSet(w: Word, v: int): Word {
    WithCount(w, ToWord(v))
  }

  /** iopte_tblcnt_add, and iopte_tblcnt_sub for a negative n */
  function TblCntAdd(w: Word, n: int): Word {
    TblCntSet(w, TblCnt(w) + n)
  }

  /** Types 3 and 1: pages and tables, and blocks. */
  function LeafType(l: nat): Word {
    if l == LAST then Mask(1, 0) else Mask(0, 0)
  }

  /** iopte_leaf: whether iopte_type is that of a leaf of level l */
  predicate IsLeaf(w: Word, l: nat) {
    And(w, Mask(1, 0)) == LeafType(l)
  }

  /** paddr_to_iopte: bits 51 to 48 go to bits 15 to 12. */
  function FromPaddr(p: Word): Word {
    And(Or(p, Shr(p, 36)), Mask(47, 12))
  }

  /** iopte_to_paddr, for a granule of 2^g bytes */
  function ToPaddr(w: Word, g: nat): Word {
    var p := And(Val(w), Mask(47, 12));
    if g < 16 then p else And(Or(p, Shl(p, 36)), Mask(51, 16))
  }

  predicate Granule(g: nat) {
    g == 12 || g == 14 || g == 16
  }

  // Each bit of the words that these give.

  lemma {:induction false} CountFieldBit(w: Word, i: nat)
    requires i < 64
    ensures CountField(w)[i] == if i < 10 then w[i + 2] else i < 13 && w[i + 42]
  {
  }

  lemma {:induction false} WithCountBit(w: Word, v: Word, i: nat)
    requires i < 64
    ensures WithCount(w, v)[i] ==
            if 2 <= i <= 11 then v[i - 2] else if 52 <= i <= 54 then v[i - 42] else w[i]
  {
  }

  lemma {:induction false} ToPaddrBit(w: Word, g: nat, i: nat)
    requires i < 64
    ensures ToPaddr(w, g)[i] ==
            if g < 16 then 12 <= i < 48 && w[i] else 16 <= i < 52 && w[if i < 48 then i else i - 36]
  {
  }

  lemma {:induction false} FromPaddrBit(p: Word, i: nat)
    requires i < 64
    ensures FromPaddr(p)[i] == (12 <= i < 48 && (p[i] || (i < 28 && p[i + 36])))
  {
  }

  /** The count that is read is the count that was set, in thirteen bits. */
  lemma {:induction false} CountReadBack(w: Word, v: int)
    ensures TblCnt(TblCntSet(w, v)) == v % COUNTS
  {
    var x := ToWord(v);
    var w' := WithCount(w, x);
    forall i | 0 <= i < 64
      ensures CountField(w')[i] == (i < 13 && x[i])
    {
      CountFieldBit(w', i);
      WithCountBit(w, x, if i < 10 then i + 2 else if i < 13 then i + 42 else 0);
    }
    LowBits(CountField(w'), v, 13);
    assert Pow2(13) == COUNTS;
  }

  /** Words with the same address bits. */
  lemma {:induction false} SameAddress(w: Word, w': Word, g: nat)
    requires forall i :: 12 <= i < 48 ==> w'[i] == w[i]
    ensures ToPaddr(w', g) == ToPaddr(w, g)
  {
    forall i | 0 <= i < 64
      ensures ToPaddr(w', g)[i] == ToPaddr(w, g)[i]
    {
      ToPaddrBit(w, g, i);
      ToPaddrBit(w', g, i);
    }
  }

  lemma {:induction false} SameLeaf(w: Word, w': Word, l: nat)
    requires w'[0] == w[0] && w'[1] == w[1]
    ensures IsLeaf(w', l) <==> IsLeaf(w, l)
  {
    assert And(w', Mask(1, 0)) == And(w, Mask(1, 0));
  }

  /** Setting the count changes neither the address nor the kind. */
  lemma {:induction false} WithCountKeeps(w: Word, v: Word, g: nat, l: nat)
    ensures ToPaddr(WithCount(w, v), g) == ToPaddr(w, g)
    ensures IsLeaf(WithCount(w, v), l) <==> IsLeaf(w, l)
    ensures WithCount(w, v)[0] == w[0]
  {
    forall i | 0 <= i < 64 && !(2 <= i <= 11 || 52 <= i <= 54)
      ensures WithCount(w, v)[i] == w[i]
    {
      WithCountBit(w, v, i);
    }
    SameAddress(w, WithCount(w, v), g);
    SameLeaf(w, WithCount(w, v), l);
  }

  // ----- what a descriptor means --------------------------------------------------------------------------

  /** The number of the granule at the address in a descriptor. */
  function GranuleAt(w: Word, g: nat): nat {
    Number(Shr(ToPaddr(w, g), g))
  }

  /** The descriptor of the model that a word in a table of level l stands for. */
  function Decode(g: nat, l: nat, w: Word): Pte {
    if w == NoBits() then Zero
    else if IsLeaf(w, l) then Leaf(GranuleAt(w, g), Number(And(w, Attributes())))
    else Table(GranuleAt(w, g), TblCnt(w))
  }

  /** The word that __arm_lpae_init_pte writes for granule number x. */
  function LeafWord(g: nat, l: nat, x: Word, prot: Word): Word {
    Or(Or(prot, LeafType(l)), FromPaddr(Shl(x, g)))
  }

  /** The word that arm_lpae_install_table writes for a table in granule x with count v, with NSTABLE
      and SW_SYNC as the case may be. */
  function TableWord(g: nat, x: Word, v: Word, ns: bool, sync: bool): Word {
    var w := WithCount(Uncounted(g, x, ns), v);
    if sync then Or(w, Mask(55, 55)) else w
  }

  function Uncounted(g: nat, x: Word, ns: bool): Word {
    var w := Or(Shl(x, g), Mask(1, 0));
    if ns then Or(w, Mask(63, 63)) else w
  }

  /** The number of bits for an output address, in granules: bits above the address field are packed
      into its lowest bits for the largest granule only. */
  function OutputBits(g: nat): nat
    requires Granule(g)
  {
    if g == 16 then 36 else 48 - g
  }

  lemma {:induction false} ProtBit(prot: Word, i: nat)
    requires And(prot, Attributes()) == prot && i < 64
    ensures prot[i] ==> 2 <= i <= 11 || 53 <= i <= 54
  {
    assert prot[i] == And(prot, Attributes())[i];
  }

  lemma {:induction false} LeafBit(g: nat, l: nat, x: Word, prot: Word, i: nat)
    requires And(prot, Attributes()) == prot && i < 64
    ensures LeafWord(g, l, x, prot)[i] ==
            if i == 0 then true else if i == 1 then l == LAST
            else if 12 <= i < 48 then FromPaddr(Shl(x, g))[i] else prot[i]
  {
    FromPaddrBit(Shl(x, g), i);
    ProtBit(prot, i);
  }

  lemma {:induction false} LeafAttributes(g: nat, l: nat, x: Word, prot: Word)
    requires And(prot, Attributes()) == prot
    ensures And(LeafWord(g, l, x, prot), Attributes()) == prot
  {
    var w := LeafWord(g, l, x, prot);
    forall i | 0 <= i < 64
      ensures And(w, Attributes())[i] == prot[i]
    {
      LeafBit(g, l, x, prot, i);
      ProtBit(prot, i);
    }
  }

  /** No bit of x lies above those for an output address. */
  predicate HasOutputBits(g: nat, x: Word)
    requires Granule(g)
  {
    forall i :: OutputBits(g) <= i < 64 ==> !x[i]
  }

  lemma {:induction false} LeafAddressBit(g: nat, l: nat, x: Word, prot: Word, i: nat)
    requires Granule(g) && And(prot, Attributes()) == prot && i < 64
    ensures Shr(ToPaddr(LeafWord(g, l, x, prot), g), g)[i] ==> i < OutputBits(g)
    ensures HasOutputBits(g, x) ==>
              Shr(ToPaddr(LeafWord(g, l, x, prot), g), g)[i] == (i < OutputBits(g) && x[i])
  {
    var w := LeafWord(g, l, x, prot);
    if i + g < 64 {
      ToPaddrBit(w, g, i + g);
      if i < OutputBits(g) {
        LeafOutputBit(g, l, x, prot, i);
      }
    }
  }

  lemma {:induction false} LeafOutputBit(g: nat, l: nat, x: Word, prot: Word, i: nat)
    requires Granule(g) && And(prot, Attributes()) == prot && i < OutputBits(g)
    ensures HasOutputBits(g, x) ==> LeafWord(g, l, x, prot)[if i + g < 48 then i + g else i + g - 36] == x[i]
  {
    var k := if i + g < 48 then i + g else i + g - 36;
    LeafBit(g, l, x, prot, k);
    FromPaddrBit(Shl(x, g), k);
  }

  lemma {:induction false} LeafAddress(g: nat, l: nat, phys: nat, prot: Word)
    requires Granule(g) && And(prot, Attributes()) == prot
    ensures GranuleAt(LeafWord(g, l, ToWord(phys), prot), g) == phys <==> phys < Pow2(OutputBits(g))
  {
    var x, n := ToWord(phys), OutputBits(g);
    var d := Shr(ToPaddr(LeafWord(g, l, x, prot), g), g);
    forall i | 0 <= i < 64
      ensures d[i] ==> i < n
      ensures HasOutputBits(g, x) ==> d[i] == (i < n && x[i])
    {
      LeafAddressBit(g, l, x, prot, i);
    }
    NumberBound(d, n);
    if phys < Pow2(n) {
      forall i | n <= i < 64
        ensures !x[i]
      {
        HighBits(phys, n, 64, i);
      }
      LowBits(d, phys, n);
      SmallMod(phys, Pow2(n));
    }
  }

  lemma SmallMod(x: nat, d: nat)
    requires x < d
    ensures x % d == x
  {
    DivMod(x, d, 0, x);
  }

  /** A leaf entry gives back its address, attributes and kind, exactly if the address fits. */
  lemma {:induction false} LeafRoundTrip(g: nat, l: nat, phys: nat, prot: Word)
    requires Granule(g) && And(prot, Attributes()) == prot
    ensures LeafWord(g, l, ToWord(phys), prot)[0]
    ensures Decode(g, l, LeafWord(g, l, ToWord(phys), prot)) == Leaf(phys, Number(prot)) <==> phys < Pow2(OutputBits(g))
  {
    var w := LeafWord(g, l, ToWord(phys), prot);
    LeafBit(g, l, ToWord(phys), prot, 0);
    LeafBit(g, l, ToWord(phys), prot, 1);
    assert w[0] && And(w, Mask(1, 0)) == LeafType(l);
    LeafAttributes(g, l, ToWord(phys), prot);
    LeafAddress(g, l, phys, prot);
  }

  lemma {:induction false} TableBit(g: nat, x: Word, v: Word, ns: bool, sync: bool, i: nat)
    requires Granule(g) && (i < 2 || 12 <= i < 48)
    ensures TableWord(g, x, v, ns, sync)[i] == if i < 2 then true else i >= g && x[i - g]
  {
    WithCountBit(Uncounted(g, x, ns), v, i);
  }

  lemma {:induction false} TableAddressBit(g: nat, x: Word, v: Word, ns: bool, sync: bool, i: nat)
    requires Granule(g) && i < 64
    ensures Shr(ToPaddr(TableWord(g, x, v, ns, sync), g), g)[i] == (i < 48 - g && x[i])
  {
    var w := TableWord(g, x, v, ns, sync);
    if i + g < 64 {
      ToPaddrBit(w, g, i + g);
      if i + g < 48 {
        TableBit(g, x, v, ns, sync, i + g);
      } else if i + g < 52 {
        TableBit(g, x, v, ns, sync, i + g - 36);
      }
    }
  }

  lemma {:induction false} TableAddress(g: nat, addr: nat, v: Word, ns: bool, sync: bool)
    requires Granule(g)
    ensures GranuleAt(TableWord(g, ToWord(addr), v, ns, sync), g) == addr % Pow2(48 - g)
  {
    var x := ToWord(addr);
    var d := Shr(ToPaddr(TableWord(g, x, v, ns, sync), g), g);
    forall i | 0 <= i < 64
      ensures d[i] == (i < 48 - g && x[i])
    {
      TableAddressBit(g, x, v, ns, sync, i);
    }
    LowBits(d, addr, 48 - g);
  }

  lemma {:induction false} TableCount(g: nat, x: Word, count: int, ns: bool, sync: bool)
    ensures TblCnt(TableWord(g, x, ToWord(count), ns, sync)) == count % COUNTS
  {
    var w := TblCntSet(Uncounted(g, x, ns), count);
    var w' := TableWord(g, x, ToWord(count), ns, sync);
    CountReadBack(Uncounted(g, x, ns), count);
    forall i | 0 <= i < 64
      ensures CountField(w')[i] == CountField(w)[i]
    {
      CountFieldBit(w, i);
      CountFieldBit(w', i);
    }
    assert CountField(w') == CountField(w);
  }

  /** The address of a table is not packed: it is found again exactly if it has no bits above bit 47,
      with the largest granule too. */
  lemma {:induction false} TableRoundTrip(g: nat, l: nat, addr: nat, count: int, ns: bool, sync: bool)
    requires Granule(g) && l < LAST
    ensures TableWord(g, ToWord(addr), ToWord(count), ns, sync)[0]
    ensures Decode(g, l, TableWord(g, ToWord(addr), ToWord(count), ns, sync)) == Table(addr, count % COUNTS) <==>
            addr < Pow2(48 - g)
  {
    var x, v := ToWord(addr), ToWord(count);
    var w := TableWord(g, x, v, ns, sync);
    TableBit(g, x, v, ns, sync, 0);
    TableBit(g, x, v, ns, sync, 1);
    assert w[0] && And(w, Mask(1, 0))[1] && !LeafType(l)[1];
    TableCount(g, x, count, ns, sync);
    TableAddress(g, addr, v, ns, sync);
    if addr < Pow2(48 - g) {
      SmallMod(addr, Pow2(48 - g));
    }
  }

  lemma {:induction false} CountIsSet(g: nat, l: nat, w: Word, v: int)
    requires w[0] && Decode(g, l, w).Table?
    ensures TblCntSet(w, v)[0] && Decode(g, l, TblCntSet(w, v)) == Table(Decode(g, l, w).addr, v % COUNTS)
  {
    CountReadBack(w, v);
    WithCountKeeps(w, ToWord(v), g, l);
    assert w != NoBits() && TblCntSet(w, v) != NoBits();
  }

  lemma {:induction false} DecodedCount(g: nat, l: nat, w: Word)
    requires Decode(g, l, w).Table?
    ensures Decode(g, l, w).count == TblCnt(w)
  {
  }

  /** Counting entries is addition modulo 8192, whatever else the word holds. */
  lemma {:induction false} CountAdds(g: nat, l: nat, w: Word, n: int)
    requires w[0] && Decode(g, l, w).Table?
    ensures TblCntAdd(w, n)[0]
    ensures Decode(g, l, TblCntAdd(w, n)) == Table(Decode(g, l, w).addr, (TblCnt(w) + n) % COUNTS)
  {
    CountIsSet(g, l, w, TblCnt(w) + n);
  }

  // ----- tables in memory -------------------------------------------------------------------------------

  /** The word stands for the descriptor, which is in use exactly if the valid bit is set. */
  predicate StandsFor(g: nat, l: nat, w: Word, p: Pte) {
    Decode(g, l, w) == p && (p.Zero? <==> !w[0])
  }

  ghost predicate EntryStands(g: nat, words: map<nat, seq<Word>>, h: Heap, a: nat, i: nat)
    requires a in words && a in h.tables && a in h.place && i < |words[a]| && i < |h.tables[a]|
  {
    StandsFor(g, h.place[a].lvl, words[a][i], h.tables[a][i])
  }

  /** The words in memory are those of the tables. */
  ghost predicate Represents(g: nat, words: map<nat, seq<Word>>, h: Heap) {
    && words.Keys == h.tables.Keys == h.place.Keys
    && (forall a :: a in h.tables ==> |words[a]| == |h.tables[a]|)
    && forall a, i {:trigger EntryStands(g, words, h, a, i)} :: a in h.tables && 0 <= i < |h.tables[a]| ==>
         EntryStands(g, words, h, a, i)
  }

  /** arm_lpae_iova_to_phys, on the words from table a at level l */
  function WalkWords(c: Config, g: nat, words: map<nat, seq<Word>>, a: nat, l: nat, x: nat): Translation
    requires c.e > 0 && l <= LAST
    decreases LAST - l
  {
    if a !in words || Index(c, x, l) >= |words[a]| then Fault
    else
      var w := words[a][Index(c, x, l)];
      if w == NoBits() then Fault
      else if IsLeaf(w, l) then Phys(GranuleAt(w, g) + Off(c, x, l), Number(And(w, Attributes())))
      else if l < LAST then WalkWords(c, g, words, GranuleAt(w, g), l + 1, x)
      else Fault
  }

  lemma {:induction false} WalksAgree(c: Config, g: nat, words: map<nat, seq<Word>>, h: Heap, a: nat, x: nat)
    requires Inv(c, h) && Represents(g, words, h) && a in h.tables && h.place[a].lvl <= LAST
    ensures WalkWords(c, g, words, a, h.place[a].lvl, x) == Walk(c, h, a, h.place[a].lvl, x)
    decreases LAST - h.place[a].lvl
  {
    var l, i := h.place[a].lvl, Index(c, x, h.place[a].lvl);
    if i < |h.tables[a]| {
      assert EntryStands(g, words, h, a, i);
      assert EntryFits(c, h, a, i);
      if h.tables[a][i].Table? {
        WalksAgree(c, g, words, h, h.tables[a][i].addr, x);
      }
    }
  }

  /** The words translate every address as the tables do. */
  lemma {:induction false} WordsTranslate(c: Config, g: nat, words: map<nat, seq<Word>>, h: Heap, x: nat)
    requires Inv(c, h) && Represents(g, words, h)
    ensures WalkWords(c, g, words, c.root, c.s, x) == Translate(c, h, x)
  {
    WalksAgree(c, g, words, h, c.root, x);
  }

  function PutWord(words: map<nat, seq<Word>>, a: nat, i: nat, w: Word): map<nat, seq<Word>>
    requires a in words && i < |words[a]|
  {
    words[a := words[a][..i] + [w] + words[a][i + 1..]]
  }

  function PutPte(h: Heap, a: nat, i: nat, p: Pte): Heap
    requires a in h.tables && i < |h.tables[a]|
  {
    h.(tables := h.tables[a := h.tables[a][i := p]])
  }

  /** A word and its descriptor are written. */
  lemma {:induction false} PutRepresents(g: nat, words: map<nat, seq<Word>>, h: Heap, a: nat, i: nat, w: Word, p: Pte)
    requires Represents(g, words, h) && a in h.tables && i < |h.tables[a]| && StandsFor(g, h.place[a].lvl, w, p)
    ensures Represents(g, PutWord(words, a, i, w), PutPte(h, a, i, p))
  {
    var words', h' := PutWord(words, a, i, w), PutPte(h, a, i, p);
    forall b, j | b in h'.tables && 0 <= j < |h'.tables[b]|
      ensures EntryStands(g, words', h', b, j)
    {
      assert EntryStands(g, words, h, b, j);
    }
  }

  /** __arm_lpae_init_pte writes a leaf of the model. */
  lemma {:induction false} LeafRepresents(
    g: nat, words: map<nat, seq<Word>>, h: Heap, a: nat, i: nat, phys: nat, prot: Word)
    requires Represents(g, words, h) && a in h.tables && i < |h.tables[a]|
    requires Granule(g) && And(prot, Attributes()) == prot && phys < Pow2(OutputBits(g))
    ensures Represents(g, PutWord(words, a, i, LeafWord(g, h.place[a].lvl, ToWord(phys), prot)),
                       PutPte(h, a, i, Leaf(phys, Number(prot))))
  {
    LeafRoundTrip(g, h.place[a].lvl, phys, prot);
    PutRepresents(g, words, h, a, i, LeafWord(g, h.place[a].lvl, ToWord(phys), prot), Leaf(phys, Number(prot)));
  }

  /** Clearing an entry clears the one of the model. */
  lemma {:induction false} ClearRepresents(g: nat, words: map<nat, seq<Word>>, h: Heap, a: nat, i: nat)
    requires Represents(g, words, h) && a in h.tables && i < |h.tables[a]|
    ensures Represents(g, PutWord(words, a, i, NoBits()), PutPte(h, a, i, Zero))
  {
    PutRepresents(g, words, h, a, i, NoBits(), Zero);
  }

  lemma {:induction false} CountStands(g: nat, l: nat, w: Word, p: Pte, n: int)
    requires StandsFor(g, l, w, p) && p.Table?
    ensures StandsFor(g, l, TblCntAdd(w, n), Table(p.addr, (p.count + n) % COUNTS))
  {
    CountAdds(g, l, w, n);
    DecodedCount(g, l, w);
  }

  /** iopte_tblcnt_add and iopte_tblcnt_sub add to the count of the model, modulo 8192. */
  lemma {:induction false} CountRepresents(g: nat, words: map<nat, seq<Word>>, h: Heap, a: nat, i: nat, n: int)
    requires Represents(g, words, h) && a in h.tables && i < |h.tables[a]| && h.tables[a][i].Table?
    ensures Represents(g, PutWord(words, a, i, TblCntAdd(words[a][i], n)),
                       PutPte(h, a, i, Table(h.tables[a][i].addr, (h.tables[a][i].count + n) % COUNTS)))
  {
    var w, p := TblCntAdd(words[a][i], n), Table(h.tables[a][i].addr, (h.tables[a][i].count + n) % COUNTS);
    assert StandsFor(g, h.place[a].lvl, w, p) by {
      assert EntryStands(g, words, h, a, i);
      CountStands(g, h.place[a].lvl, words[a][i], h.tables[a][i], n);
    }
    PutRepresents(g, words, h, a, i, w, p);
  }

  /** arm_lpae_install_table installs a table of the model, if its address has no bits above bit 47. */
  lemma {:induction false} TableRepresents(
    c: Config, g: nat, words: map<nat, seq<Word>>, h: Heap, a: nat, i: nat, t: nat, entries: seq<Word>, ptes: seq<Pte>,
    count: nat, ns: bool, sync: bool)
    requires Represents(g, words, h) && a in h.tables && i < |h.tables[a]| && i < c.e && h.place[a].lvl < LAST
    requires t !in h.tables && |entries| == |ptes|
    requires forall j :: 0 <= j < |entries| ==> StandsFor(g, h.place[a].lvl + 1, entries[j], ptes[j])
    requires Granule(g) && t < Pow2(48 - g)
    ensures Represents(g, PutWord(words, a, i, TableWord(g, ToWord(t), ToWord(count), ns, sync))[t := entries],
                       Install(c, h, a, i, t, ptes, count % COUNTS))
  {
    var w, p := TableWord(g, ToWord(t), ToWord(count), ns, sync), Table(t, count % COUNTS);
    TableRoundTrip(g, h.place[a].lvl, t, count, ns, sync);
    PutRepresents(g, words, h, a, i, w, p);
    var words1, h1 := PutWord(words, a, i, w), PutPte(h, a, i, p);
    var words', h' := words1[t := entries], Install(c, h, a, i, t, ptes, count % COUNTS);
    forall b, j | b in h'.tables && 0 <= j < |h'.tables[b]|
      ensures EntryStands(g, words', h', b, j)
    {
      if b != t {
        assert EntryStands(g, words1, h1, b, j);
      }
    }
  }
}
