/** Over every run, a size class of mm/zsmalloc.c behaves like a map from handles to contents. */
module ZsRun {
  import opened ZsMemory
  import opened ZsZspage
  import opened ZsPool
  import opened ZsMoves

  /** What can happen to the objects of a size class. */
  datatype Event =
    | Malloc(z: nat, h: nat)
    | Free(h: nat)
    | Write(h: nat, data: seq<Word>)
    | Move(h: nat, dst: nat)
    | MigratePage(z: nat, j: nat, to: nat)
    | AddZspage(z: nat, frames: seq<nat>)
    | RemoveZspage(z: nat)

  ghost predicate Steps(c: Class, s: Pool, e: Event, s': Pool) {
    match e
    case Malloc(z, h) => MallocStep(c, s, s', z, h)
    case Free(h) => FreeStep(c, s, s', h)
    case Write(h, data) => WriteStep(c, s, s', h, data)
    case Move(h, dst) => MoveStep(c, s, s', h, dst)
    case MigratePage(z, j, to) => MigrateStep(c, s, s', z, j, to)
    case AddZspage(z, frames) => AddStep(c, s, s', z, frames)
    case RemoveZspage(z) => RemoveStep(c, s, s', z)
  }

  ghost predicate StepAt(c: Class, ss: seq<Pool>, es: seq<Event>, i: nat) {
    i < |es| && i + 1 < |ss| && Steps(c, ss[i], es[i], ss[i + 1])
  }

  ghost predicate Run(c: Class, ss: seq<Pool>, es: seq<Event>) {
    |ss| == |es| + 1 && forall i :: 0 <= i < |es| ==> StepAt(c, ss, es, i)
  }

  /** A size class without zspages. */
  function Initial(mem: Memory): Pool {
    Pool(map[], mem, map[], map[], map[])
  }

  /** The maps agree, except possibly about h. */
  predicate Agree(m: map<nat, seq<Word>>, m': map<nat, seq<Word>>, h: nat) {
    forall h' :: h' in m && h' in m' && h' != h ==> m'[h'] == m[h']
  }

  /** What the same events do to a map. */
  predicate MapSteps(m: map<nat, seq<Word>>, e: Event, m': map<nat, seq<Word>>) {
    match e
    case Malloc(_, h) => h !in m && m'.Keys == m.Keys + {h} && Agree(m, m', h)
    case Free(h) => h in m && m'.Keys == m.Keys - {h} && Agree(m, m', h)
    case Write(h, data) => h in m && m'.Keys == m.Keys && m'[h] == data && |data| == |m[h]| && Agree(m, m', h)
    case _ => m' == m
  }

  lemma {:induction false} SameContent(c: Class, s: Pool, s': Pool)
    requires Inv(c, s) && Inv(c, s') && AllSame(c, s, s')
    ensures Content(c, s') == Content(c, s)
  {
    forall h | h in s.handles
      ensures Content(c, s')[h] == Content(c, s)[h]
    {
      assert HandleFits(c, s', h);
    }
  }

  lemma {:induction false} ContentBut(c: Class, s: Pool, s': Pool, h: nat)
    requires Inv(c, s) && Inv(c, s') && OthersSame(c, s, s', h)
    ensures Agree(Content(c, s), Content(c, s'), h)
  {
    forall h' | h' in s.handles && h' in s'.handles && h' != h
      ensures Content(c, s')[h'] == Content(c, s)[h']
    {
      assert HandleFits(c, s', h');
    }
  }

  lemma {:induction false} MallocRefines(c: Class, s: Pool, s': Pool, z: nat, h: nat)
    requires Inv(c, s) && MallocStep(c, s, s', z, h)
    ensures Inv(c, s') && MapSteps(Content(c, s), Malloc(z, h), Content(c, s'))
  {
    MallocStepKeeps(c, s, s', z, h);
    ContentBut(c, s, s', h);
  }

  lemma {:induction false} FreeRefines(c: Class, s: Pool, s': Pool, h: nat)
    requires Inv(c, s) && FreeStep(c, s, s', h)
    ensures Inv(c, s') && MapSteps(Content(c, s), Free(h), Content(c, s'))
  {
    FreeStepKeeps(c, s, s', h);
    ContentBut(c, s, s', h);
  }

  lemma {:induction false} WriteRefines(c: Class, s: Pool, s': Pool, h: nat, data: seq<Word>)
    requires Inv(c, s) && WriteStep(c, s, s', h, data)
    ensures Inv(c, s') && MapSteps(Content(c, s), Write(h, data), Content(c, s'))
  {
    WriteStepKeeps(c, s, s', h, data);
    ContentBut(c, s, s', h);
  }

  /** Moving objects, moving pages, adding and removing zspages leave every handle as it is. */
  lemma {:induction false} QuietSame(c: Class, s: Pool, e: Event, s': Pool)
    requires Inv(c, s) && Steps(c, s, e, s') && !e.Malloc? && !e.Free? && !e.Write?
    ensures Inv(c, s') && AllSame(c, s, s')
  {
    match e
    case Move(h, dst) => MoveStepKeeps(c, s, s', h, dst);
    case MigratePage(z, j, to) => MigrateStepKeeps(c, s, s', z, j, to);
    case AddZspage(z, frames) => AddStepKeeps(c, s, s', z, frames);
    case RemoveZspage(z) => RemoveStepKeeps(c, s, s', z);
  }

  /** Each step does to the pool's content what it does to the map. */
  lemma {:induction false} StepRefines(c: Class, s: Pool, e: Event, s': Pool)
    requires Inv(c, s) && Steps(c, s, e, s')
    ensures Inv(c, s') && MapSteps(Content(c, s), e, Content(c, s'))
  {
    match e
    case Malloc(z, h) => MallocRefines(c, s, s', z, h);
    case Free(h) => FreeRefines(c, s, s', h);
    case Write(h, data) => WriteRefines(c, s, s', h, data);
    case _ =>
      QuietSame(c, s, e, s');
      SameContent(c, s, s');
  }

  lemma {:induction false} InitialInv(c: Class, mem: Memory)
    requires Numbered(c)
    ensures Inv(c, Initial(mem)) && Content(c, Initial(mem)) == map[]
  {
  }

  lemma {:induction false} RunKeeps(c: Class, mem: Memory, ss: seq<Pool>, es: seq<Event>, n: nat)
    requires Numbered(c) && Run(c, ss, es) && ss[0] == Initial(mem) && n <= |es|
    ensures Inv(c, ss[n])
    decreases n
  {
    if n == 0 {
      InitialInv(c, mem);
    } else {
      RunKeeps(c, mem, ss, es, n - 1);
      assert StepAt(c, ss, es, n - 1);
      StepRefines(c, ss[n - 1], es[n - 1], ss[n]);
    }
  }

  lemma {:induction false} StepInRun(c: Class, mem: Memory, ss: seq<Pool>, es: seq<Event>, n: nat)
    requires Numbered(c) && Run(c, ss, es) && ss[0] == Initial(mem) && n < |es|
    ensures Inv(c, ss[n]) && Inv(c, ss[n + 1])
    ensures MapSteps(Content(c, ss[n]), es[n], Content(c, ss[n + 1]))
  {
    RunKeeps(c, mem, ss, es, n);
    assert StepAt(c, ss, es, n);
    StepRefines(c, ss[n], es[n], ss[n + 1]);
  }

  predicate MapStepAt(ms: seq<map<nat, seq<Word>>>, es: seq<Event>, i: nat) {
    i < |es| && i + 1 < |ms| && MapSteps(ms[i], es[i], ms[i + 1])
  }

  /** A run of the events on a plain map. */
  predicate MapRun(ms: seq<map<nat, seq<Word>>>, es: seq<Event>) {
    |ms| == |es| + 1 && ms[0] == map[] && forall i :: 0 <= i < |es| ==> MapStepAt(ms, es, i)
  }

  /** Pool i is in order and holds what map i says. */
  ghost predicate ContentAt(c: Class, ss: seq<Pool>, ms: seq<map<nat, seq<Word>>>, i: nat) {
    i < |ss| && i < |ms| && Inv(c, ss[i]) && ms[i] == Content(c, ss[i])
  }

  /** What the first n pools hold. */
  lemma {:induction false} Contents(c: Class, mem: Memory, ss: seq<Pool>, es: seq<Event>, n: nat)
    returns (ms: seq<map<nat, seq<Word>>>)
    requires Numbered(c) && Run(c, ss, es) && ss[0] == Initial(mem) && n <= |ss|
    ensures |ms| == n && forall i :: 0 <= i < n ==> ContentAt(c, ss, ms, i)
    decreases n
  {
    if n == 0 {
      return [];
    }
    var m := Contents(c, mem, ss, es, n - 1);
    RunKeeps(c, mem, ss, es, n - 1);
    ms := m + [Content(c, ss[n - 1])];
    forall i | 0 <= i < n
      ensures ContentAt(c, ss, ms, i)
    {
      if i < n - 1 {
        assert ContentAt(c, ss, m, i);
      }
    }
  }

  /** The promise of the allocator: through every run of allocations, frees, writes, moves between
      zspages and moves of pages the pool is in order, and the run is one of the same events on a
      plain map. */
  lemma {:induction false} PoolRefinesMap(c: Class, mem: Memory, ss: seq<Pool>, es: seq<Event>)
    returns (ms: seq<map<nat, seq<Word>>>)
    requires Numbered(c) && Run(c, ss, es) && ss[0] == Initial(mem)
    ensures |ms| == |ss| && forall i :: 0 <= i < |ss| ==> ContentAt(c, ss, ms, i)
    ensures MapRun(ms, es)
  {
    ms := Contents(c, mem, ss, es, |ss|);
    assert ContentAt(c, ss, ms, 0);
    InitialInv(c, mem);
    forall i | 0 <= i < |es|
      ensures MapStepAt(ms, es, i)
    {
      StepInRun(c, mem, ss, es, i);
      assert ContentAt(c, ss, ms, i) && ContentAt(c, ss, ms, i + 1);
    }
  }

  predicate Concerns(e: Event, h: nat) {
    match e
    case Malloc(_, h') => h' == h
    case Free(h') => h' == h
    case Write(h', _) => h' == h
    case _ => false
  }

  /** So what was written through a handle is what is read through it, whatever else happens until
      it is written or freed again. */
  lemma {:induction false} WrittenStays(
    ms: seq<map<nat, seq<Word>>>, es: seq<Event>, k: nat, n: nat, h: nat, data: seq<Word>)
    requires MapRun(ms, es) && k < n <= |es| && es[k] == Write(h, data) && forall i :: k < i < n ==> !Concerns(es[i], h)
    ensures h in ms[n] && ms[n][h] == data
    decreases n
  {
    assert MapStepAt(ms, es, n - 1);
    if k + 1 < n {
      WrittenStays(ms, es, k, n - 1, h, data);
      KeptBySteps(ms[n - 1], es[n - 1], ms[n], h);
    }
  }

  lemma {:induction false} KeptBySteps(m: map<nat, seq<Word>>, e: Event, m': map<nat, seq<Word>>, h: nat)
    requires MapSteps(m, e, m') && !Concerns(e, h) && h in m
    ensures h in m' && m'[h] == m[h]
  {
  }

  // ----- objects do not overlap ---------------------------------------------------------------------

  /** Word k of the object of handle h: its frame and its offset there. */
  function Place(c: Class, s: Pool, h: nat, k: nat): (nat, nat)
    requires HandleFits(c, s, h) && k < c.sz
  {
    var z, at := ZspageOf(s, h), Start(c, s.handles[h].idx) + k;
    ObjectFits(c, s.handles[h].idx);
    PageBound(c, at);
    (s.zs[z].frames[PageOf(c, at)], InPage(c, at))
  }

  /** The objects of different handles have no word of memory in common. */
  lemma {:induction false} ObjectsDisjoint(c: Class, s: Pool, h: nat, h': nat, k: nat, k': nat)
    requires Inv(c, s) && h in s.handles && h' in s.handles && h != h' && k < c.sz && k' < c.sz
    ensures HandleFits(c, s, h) && HandleFits(c, s, h') && Place(c, s, h, k) != Place(c, s, h', k')
  {
    assert HandleFits(c, s, h) && HandleFits(c, s, h');
    var z, z' := ZspageOf(s, h), ZspageOf(s, h');
    var i, i' := s.handles[h].idx, s.handles[h'].idx;
    var at, at' := Start(c, i) + k, Start(c, i') + k';
    ObjectFits(c, i);
    ObjectFits(c, i');
    PageBound(c, at);
    PageBound(c, at');
    if z != z' {
      ChainsApart(c, s, z, z');
    } else {
      assert ZspageFits(c, s, z);
      WordsDiffer(c, i, i', k, k');
      PlacesDiffer(c, s.mem, s.zs[z].frames, at, at');
    }
  }

  /** Different words of a chain are in different places. */
  lemma {:induction false} PlacesDiffer(c: Class, mem: Memory, frames: seq<nat>, k: nat, k': nat)
    requires Good(c) && Chain(c, mem, frames) && k < Words(c) && k' < Words(c) && k != k'
    ensures PageOf(c, k) < |frames| && PageOf(c, k') < |frames|
    ensures (frames[PageOf(c, k)], InPage(c, k)) != (frames[PageOf(c, k')], InPage(c, k'))
  {
    PageBound(c, k);
    PageBound(c, k');
    PageSplit(c, k);
    PageSplit(c, k');
  }

  lemma {:induction false} WordsDiffer(c: Class, i: nat, i': nat, k: nat, k': nat)
    requires Good(c) && i != i' && k < c.sz && k' < c.sz
    ensures Start(c, i) + k != Start(c, i') + k'
  {
    if i < i' {
      StartMono(c, i, i');
    } else {
      StartMono(c, i', i);
    }
  }
}
