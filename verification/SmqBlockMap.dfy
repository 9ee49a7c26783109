/** The producer's private map of data blocks (drivers/char/rdbg.c).

    A cell is 0 for a free block.  A message of n blocks is marked n, n-1, ..., 1, so that any
    of its cells says how far the message still extends. */
module SmqBlockMap {

  // ----- the map as a sequence ----------------------------------------------------------------

  /** Every message's marks count down to 1 within the map. */
  predicate CountsDown(m: seq<nat>) {
    && (forall i :: 0 <= i < |m| - 1 && m[i] > 1 ==> m[i + 1] == m[i] - 1)
    && (|m| > 0 ==> m[|m| - 1] <= 1)
  }

  /** No message extends across the border before cell i. */
  predicate Border(m: seq<nat>, i: nat)
    requires i <= |m|
  {
    i == 0 || m[i - 1] <= 1
  }

  /** A message starts at cell i. */
  predicate MessageAt(m: seq<nat>, i: nat) {
    i < |m| && m[i] > 0 && Border(m, i)
  }

  predicate FreeRun(m: seq<nat>, lo: nat, hi: nat) {
    lo <= hi <= |m| && forall i :: lo <= i < hi ==> m[i] == 0
  }

  /** There are n free blocks in a row. */
  ghost predicate HasRun(m: seq<nat>, n: nat) {
    exists i: nat :: RowAt(m, i, n)
  }

  predicate RowAt(m: seq<nat>, i: nat, n: nat) {
    FreeRun(m, i, i + n)
  }

  /** A maximal row of free blocks starts at cell i. */
  predicate RunStart(m: seq<nat>, i: nat) {
    i < |m| && m[i] == 0 && (i == 0 || m[i - 1] != 0)
  }

  /** The map with a message of n blocks marked at cell b. */
  function Marked(m: seq<nat>, b: nat, n: nat): (r: seq<nat>)
    requires b + n <= |m|
    ensures |r| == |m|
  {
    seq(|m|, i requires 0 <= i < |m| => if b <= i < b + n then b + n - i else m[i])
  }

  /** The map as it is stored: a cell has eight bits. */
  function MarkedBytes(m: seq<nat>, b: nat, n: nat): (r: seq<nat>)
    requires b + n <= |m|
    ensures |r| == |m|
  {
    seq(|m|, i requires 0 <= i < |m| => if b <= i < b + n then (b + n - i) % 256 else m[i])
  }

  /** The marks are stored as meant exactly if the message has at most 255 blocks. */
  lemma {:induction false} BytesAreMarks(m: seq<nat>, b: nat, n: nat)
    requires b + n <= |m|
    ensures MarkedBytes(m, b, n) == Marked(m, b, n) <==> n <= 255
    ensures n > 255 ==> MarkedBytes(m, b, n)[b] != n
  {
    if n > 255 {
      assert Marked(m, b, n)[b] == n && MarkedBytes(m, b, n)[b] == n % 256;
    }
  }

  /** The map with the message at cell b erased. */
  function Erased(m: seq<nat>, b: nat): (r: seq<nat>)
    requires b < |m| && b + m[b] <= |m|
    ensures |r| == |m|
  {
    seq(|m|, i requires 0 <= i < |m| => if b <= i < b + m[b] then 0 else m[i])
  }

  lemma {:induction false} MessageExtent(m: seq<nat>, b: nat, k: nat)
    requires CountsDown(m) && b < |m| && k < m[b]
    ensures b + k < |m| && m[b + k] == m[b] - k
  {
    if k > 0 {
      MessageExtent(m, b, k - 1);
    }
  }

  lemma {:induction false} MessageFits(m: seq<nat>, b: nat)
    requires CountsDown(m) && b < |m|
    ensures b + m[b] <= |m|
    ensures m[b] > 0 ==> Border(m, b + m[b])
  {
    if m[b] > 0 {
      MessageExtent(m, b, m[b] - 1);
    }
  }

  /** Distinct messages occupy disjoint blocks. */
  lemma {:induction false} MessagesDisjoint(m: seq<nat>, a: nat, b: nat)
    requires CountsDown(m) && MessageAt(m, a) && MessageAt(m, b) && a < b
    ensures a + m[a] <= b
  {
    if b < a + m[a] {
      MessageExtent(m, a, b - a - 1);
    }
  }

  lemma {:induction false} MarkedCountsDown(m: seq<nat>, b: nat, n: nat)
    requires CountsDown(m) && n > 0 && b + n <= |m| && FreeRun(m, b, b + n)
    ensures var r := Marked(m, b, n);
            && CountsDown(r) && MessageAt(r, b) && r[b] == n
            && (forall i: nat :: i != b ==> (MessageAt(r, i) <==> MessageAt(m, i)))
            && (forall i: nat :: MessageAt(m, i) ==> r[i] == m[i])
  {
    var r := Marked(m, b, n);
    assert m[b] == 0 && Border(m, b);
    forall i: nat | i != b
      ensures MessageAt(r, i) <==> MessageAt(m, i)
    {
      if b < i < b + n {
        assert r[i - 1] > 1;
      }
    }
  }

  lemma {:induction false} ErasedCountsDown(m: seq<nat>, b: nat)
    requires CountsDown(m) && MessageAt(m, b) && b + m[b] <= |m|
    ensures CountsDown(Erased(m, b)) && FreeRun(Erased(m, b), b, b + m[b])
  {
    var r := Erased(m, b);
    forall i | 0 <= i < |r| - 1 && r[i] > 1
      ensures r[i + 1] == r[i] - 1
    {
      assert m[i] > 1 && m[i + 1] == m[i] - 1;
      assert i + 1 != b;
    }
  }

  /** Erasing a message leaves every other message as it was. */
  lemma {:induction false} ErasedKeepsOthers(m: seq<nat>, b: nat, i: nat)
    requires CountsDown(m) && MessageAt(m, b) && b + m[b] <= |m| && i != b
    ensures MessageAt(Erased(m, b), i) <==> MessageAt(m, i)
    ensures MessageAt(m, i) ==> Erased(m, b)[i] == m[i]
  {
    if b < i < b + m[b] {
      MessageExtent(m, b, i - b - 1);
    } else if i == b + m[b] {
      MessageExtent(m, b, m[b] - 1);
    }
  }

  /** Taking a run of blocks and giving it back restores the map. */
  lemma {:induction false} MarkThenErase(m: seq<nat>, b: nat, n: nat)
    requires n > 0 && b + n <= |m| && FreeRun(m, b, b + n)
    ensures Erased(Marked(m, b, n), b) == m
  {
  }

  // ----- the search for several blocks in a row -----------------------------------------------------

  /** The local variables of the search loop, at its test. */
  datatype Search = Search(idx: nat, start: nat, mark: nat, found: nat)

  datatype Step = Found(at: nat, last: nat) | NoMemory(idx: nat) | Continue(s: Search)

  predicate InBounds(m: seq<nat>, s: Search) {
    s.idx < |m| && s.start < |m| && s.mark <= |m|
  }

  /** `i %= len` for an index that has gone past the end at most once. */
  function Wrap(i: nat, len: nat): nat
    requires i <= len
  {
    if i == len then 0 else i
  }

  /** One iteration of the loop, its test included. */
  function Iterate(m: seq<nat>, n: nat, s: Search): (r: Step)
    requires CountsDown(m) && InBounds(m, s)
    ensures r.Continue? ==> InBounds(m, r.s)
  {
    if m[s.idx] == 0 then
      var newRun := s.mark > s.idx;
      var mark := if newRun then s.idx else s.mark;
      var start := if newRun then s.idx else s.start;
      var found := if newRun then 1 else s.found + 1;
      if found == n then Found(mark, s.idx)
      else
        var idx := Wrap(s.idx + 1, |m|);
        if start == idx then NoMemory(idx) else Continue(Search(idx, start, mark, found))
    else
      MessageFits(m, s.idx);
      var idx := Wrap(s.idx + m[s.idx], |m|);
      if s.start == idx then NoMemory(idx) else Continue(Search(idx, s.start, |m|, 0))
  }

  /** The search after a number of iterations; Continue if it is still going on. */
  function SearchFor(m: seq<nat>, n: nat, s: Search, steps: nat): Step
    requires CountsDown(m) && InBounds(m, s)
    decreases steps
  {
    if steps == 0 then Continue(s)
    else
      var r := Iterate(m, n, s);
      if r.Continue? then SearchFor(m, n, r.s, steps - 1) else r
  }

  function SearchFrom(m: seq<nat>, idx: nat): Search
    requires idx < |m|
  {
    Search(idx, idx, |m|, 0)
  }

  /** What is known at the loop test: the run counted so far. */
  predicate Counting(m: seq<nat>, n: nat, s: Search) {
    && InBounds(m, s)
    && (s.mark < |m| ==>
          && s.start == s.mark
          && s.mark + s.found <= |m|
          && FreeRun(m, s.mark, s.mark + s.found)
          && 1 <= s.found < n
          && (s.idx == s.mark + s.found || (s.idx == 0 && s.mark > 0)))
    && (s.mark == |m| ==> s.found == 0)
  }

  lemma {:induction false} IterateCounts(m: seq<nat>, n: nat, s: Search)
    requires CountsDown(m) && n >= 2 && Counting(m, n, s)
    ensures var r := Iterate(m, n, s);
            && (r.Continue? ==> Counting(m, n, r.s))
            && (r.Found? ==> RowAt(m, r.at, n) && r.last == r.at + n - 1)
    ensures Iterate(m, n, s).Found? ==> HasRun(m, n)
  {
    var r := Iterate(m, n, s);
    if r.Found? {
      assert RowAt(m, r.at, n);
    }
    if m[s.idx] != 0 {
      MessageFits(m, s.idx);
    }
  }

  /** What the search finds is free and long enough. */
  lemma {:induction false} SearchFindsFreeRun(m: seq<nat>, n: nat, s: Search, steps: nat)
    requires CountsDown(m) && n >= 2 && Counting(m, n, s)
    ensures var r := SearchFor(m, n, s, steps);
            r.Found? ==> RowAt(m, r.at, n) && HasRun(m, n) && r.last == r.at + n - 1
    decreases steps
  {
    if steps > 0 {
      IterateCounts(m, n, s);
      var r := Iterate(m, n, s);
      if r.Continue? {
        SearchFindsFreeRun(m, n, r.s, steps - 1);
      }
    }
  }

  // ----- when the search ends ----------------------------------------------------------------------------

  /** How far ahead of `from` cell `to` lies, going round; 0 if they are the same. */
  function Ahead(len: nat, from: nat, to: nat): nat
    requires from < len && to < len
  {
    if from <= to then to - from else to + len - from
  }

  /** The same, with a full turn for the same cell. */
  function Turn(len: nat, from: nat, to: nat): nat
    requires from < len && to < len
  {
    if from < to then to - from else to + len - from
  }

  /** A landmark is a cell that the search cannot jump over and that comes before the stop marker. */
  predicate Ahead0(m: seq<nat>, s: Search, a: nat) {
    InBounds(m, s) && a < |m| && Ahead(|m|, s.idx, a) < Turn(|m|, s.idx, s.start)
  }

  /** As long as a run of free blocks lies ahead before the stop marker, the search goes on
      towards it or succeeds. */
  lemma {:induction false} IterateTowards(m: seq<nat>, n: nat, s: Search, a: nat)
    requires CountsDown(m) && n >= 2 && Counting(m, n, s) && RunStart(m, a) && Ahead0(m, s, a) && s.idx != a
    ensures var r := Iterate(m, n, s);
            && !r.NoMemory?
            && (r.Continue? ==> Ahead0(m, r.s, a) && Ahead(|m|, r.s.idx, a) < Ahead(|m|, s.idx, a))
  {
    if m[s.idx] != 0 {
      MessageFits(m, s.idx);
      if s.idx < a < s.idx + m[s.idx] {
        MessageExtent(m, s.idx, a - s.idx);
      }
    }
  }

  /** Iterating further from where the search stands. */
  lemma {:induction false} SearchCompose(m: seq<nat>, n: nat, s: Search, j: nat, k: nat)
    requires CountsDown(m) && InBounds(m, s)
    ensures var r := SearchFor(m, n, s, j);
            if r.Continue? then InBounds(m, r.s) && SearchFor(m, n, s, j + k) == SearchFor(m, n, r.s, k)
            else SearchFor(m, n, s, j + k) == r
    decreases j
  {
    if j > 0 {
      var r := Iterate(m, n, s);
      if r.Continue? {
        SearchCompose(m, n, r.s, j - 1, k);
      }
    }
  }

  /** The search reaches a run that lies before its stop marker, unless it succeeds earlier. */
  lemma {:induction false} ReachRun(m: seq<nat>, n: nat, s: Search, a: nat) returns (k: nat)
    requires CountsDown(m) && n >= 2 && Counting(m, n, s) && RunStart(m, a) && Ahead0(m, s, a)
    ensures var r := SearchFor(m, n, s, k);
            r.Found? || (r.Continue? && r.s.idx == a && Counting(m, n, r.s))
    decreases Ahead(|m|, s.idx, a)
  {
    if s.idx == a {
      k := 0;
    } else {
      IterateTowards(m, n, s, a);
      IterateCounts(m, n, s);
      var r := Iterate(m, n, s);
      if r.Found? {
        k := 1;
      } else {
        k := ReachRun(m, n, r.s, a);
        k := k + 1;
      }
    }
  }

  /** Entering a run resets the count and the stop marker. */
  lemma {:induction false} EnterRun(m: seq<nat>, n: nat, s: Search)
    requires CountsDown(m) && n >= 2 && Counting(m, n, s) && RunStart(m, s.idx) && |m| > 1
    ensures Iterate(m, n, s) == Continue(Search(Wrap(s.idx + 1, |m|), s.idx, s.idx, 1))
  {
  }

  lemma {:induction false} CountRun(m: seq<nat>, n: nat, a: nat, j: nat)
    requires CountsDown(m) && n >= 2 && 1 <= j < n && a + n <= |m| && FreeRun(m, a, a + n)
    ensures SearchFor(m, n, Search(a + j, a, a, j), n - j) == Found(a, a + n - 1)
    decreases n - j
  {
    var s := Search(a + j, a, a, j);
    if j + 1 < n {
      assert Iterate(m, n, s) == Continue(Search(a + j + 1, a, a, j + 1));
      CountRun(m, n, a, j + 1);
    }
  }

  lemma {:induction false} LeftEnd(m: seq<nat>, i: nat) returns (a: nat)
    requires i < |m| && m[i] == 0
    ensures a <= i && RunStart(m, a) && FreeRun(m, a, i + 1)
    decreases i
  {
    if i == 0 || m[i - 1] != 0 {
      a := i;
    } else {
      a := LeftEnd(m, i - 1);
    }
  }

  /** If there are n free blocks in a row, the search finds such a row. */
  lemma {:induction false} LongRunIsFound(m: seq<nat>, n: nat, idx: nat) returns (k: nat)
    requires CountsDown(m) && n >= 2 && idx < |m| && HasRun(m, n)
    ensures SearchFor(m, n, SearchFrom(m, idx), k).Found?
  {
    var i: nat :| RowAt(m, i, n);
    var a := LeftEnd(m, i);
    assert FreeRun(m, a, a + n) && a + n <= |m|;
    var s := SearchFrom(m, idx);
    var j := ReachRun(m, n, s, a);
    var r := SearchFor(m, n, s, j);
    if r.Found? {
      k := j;
    } else {
      EnterRun(m, n, r.s);
      CountRun(m, n, a, 1);
      SearchCompose(m, n, s, j, n);
      k := j + n;
    }
  }

  /** The search ends at most one way: it never gives up while there is a long enough row. */
  lemma {:induction false} GivesUpOnlyWithoutRun(m: seq<nat>, n: nat, idx: nat, steps: nat)
    requires CountsDown(m) && n >= 2 && idx < |m|
    requires SearchFor(m, n, SearchFrom(m, idx), steps).NoMemory?
    ensures !HasRun(m, n)
  {
    if HasRun(m, n) {
      var k := LongRunIsFound(m, n, idx);
      SearchCompose(m, n, SearchFrom(m, idx), steps, k);
      assert steps + k == k + steps;
      SearchCompose(m, n, SearchFrom(m, idx), k, steps);
    }
  }

  /** Two runs, both too short: whichever run it is in, the other one lies before the stop marker. */
  lemma {:induction false} TwoRunsNeverEnd(m: seq<nat>, n: nat, a: nat, b: nat, s: Search, steps: nat)
    requires CountsDown(m) && n >= 2 && Counting(m, n, s) && !HasRun(m, n)
    requires RunStart(m, a) && RunStart(m, b) && a != b && Ahead0(m, s, a)
    ensures SearchFor(m, n, s, steps).Continue?
    decreases steps
  {
    if steps > 0 {
      IterateCounts(m, n, s);
      var r := Iterate(m, n, s);
      if s.idx == a {
        EnterRun(m, n, s);
        TwoRunsNeverEnd(m, n, b, a, r.s, steps - 1);
      } else {
        IterateTowards(m, n, s, a);
        TwoRunsNeverEnd(m, n, a, b, r.s, steps - 1);
      }
    }
  }

  predicate NoFree(m: seq<nat>) {
    forall i :: 0 <= i < |m| ==> m[i] != 0
  }

  lemma {:induction false} NoFreeNoRun(m: seq<nat>, n: nat)
    requires NoFree(m) && n >= 1
    ensures !HasRun(m, n)
  {
    forall i: nat
      ensures !RowAt(m, i, n)
    {
      assert i < |m| ==> m[i] != 0;
    }
  }

  /** A full map searched from inside a message: the search only ever stands at borders. */
  lemma {:induction false} InsideMessageNeverEnds(m: seq<nat>, n: nat, s: Search, steps: nat)
    requires CountsDown(m) && InBounds(m, s) && NoFree(m) && !Border(m, s.start)
    ensures SearchFor(m, n, s, steps).Continue?
    decreases steps
  {
    if steps > 0 {
      MessageFits(m, s.idx);
      InsideMessageNeverEnds(m, n, Iterate(m, n, s).s, steps - 1);
    }
  }

  /** No run starts anywhere but at the stop marker. */
  ghost predicate OnlyRunAt(m: seq<nat>, a: nat) {
    forall b: nat :: RunStart(m, b) ==> b == a
  }

  /** On the last lap: the stop marker stands at the only run, or nothing is free. */
  ghost predicate LastLap(m: seq<nat>, n: nat, s: Search) {
    && Counting(m, n, s) && OnlyRunAt(m, s.start) && Border(m, s.start)
    && (s.mark == |m| ==> s.idx == 0 || m[s.idx - 1] != 0)
    && (s.idx == s.start ==> NoFree(m))
  }

  lemma {:induction false} LapStep(m: seq<nat>, n: nat, s: Search)
    requires CountsDown(m) && n >= 2 && LastLap(m, n, s) && !HasRun(m, n)
    ensures var r := Iterate(m, n, s);
            && !r.Found?
            && (r.Continue? ==> LastLap(m, n, r.s) && Turn(|m|, r.s.idx, r.s.start) < Turn(|m|, s.idx, s.start))
  {
    IterateCounts(m, n, s);
    if m[s.idx] == 0 {
      if s.mark > s.idx {
        assert RunStart(m, s.idx);
      }
    } else {
      MessageFits(m, s.idx);
      if s.idx < s.start < s.idx + m[s.idx] {
        MessageExtent(m, s.idx, s.start - 1 - s.idx);
      }
      MessageExtent(m, s.idx, m[s.idx] - 1);
    }
  }

  lemma {:induction false} LapEnds(m: seq<nat>, n: nat, s: Search) returns (k: nat)
    requires CountsDown(m) && n >= 2 && LastLap(m, n, s) && !HasRun(m, n)
    ensures SearchFor(m, n, s, k).NoMemory?
    decreases Turn(|m|, s.idx, s.start)
  {
    LapStep(m, n, s);
    var r := Iterate(m, n, s);
    if r.Continue? {
      k := LapEnds(m, n, r.s);
      k := k + 1;
    } else {
      k := 1;
    }
  }

  /** The first free block, or the length of the map. */
  function FirstFree(m: seq<nat>, from: nat): (i: nat)
    requires from <= |m|
    ensures from <= i <= |m| && (i < |m| ==> m[i] == 0)
    ensures forall j :: from <= j < i ==> m[j] != 0
    decreases |m| - from
  {
    if from == |m| || m[from] == 0 then from else FirstFree(m, from + 1)
  }

  /** There is exactly one row of free blocks. */
  ghost predicate OneRun(m: seq<nat>) {
    FirstFree(m, 0) < |m| && OnlyRunAt(m, FirstFree(m, 0))
  }

  lemma {:induction false} OneRunEnds(m: seq<nat>, n: nat, idx: nat) returns (k: nat)
    requires CountsDown(m) && n >= 2 && idx < |m| && OneRun(m) && !HasRun(m, n)
    ensures SearchFor(m, n, SearchFrom(m, idx), k).NoMemory?
  {
    var a := FirstFree(m, 0);
    var s := SearchFrom(m, idx);
    var j := ReachRun(m, n, s, a);
    var r := SearchFor(m, n, s, j);
    SearchFindsFreeRun(m, n, s, j);
    if |m| == 1 {
      SearchCompose(m, n, s, j, 1);
      k := j + 1;
    } else {
      EnterRun(m, n, r.s);
      var t := Iterate(m, n, r.s).s;
      IterateCounts(m, n, r.s);
      assert Border(m, a);
      var l := LapEnds(m, n, t);
      SearchCompose(m, n, s, j, l + 1);
      k := j + (l + 1);
    }
  }

  /** The search for several blocks in a row comes to an end. */
  ghost predicate SearchEnds(m: seq<nat>, n: nat, idx: nat)
    requires CountsDown(m) && idx < |m|
  {
    exists steps: nat :: !SearchFor(m, n, SearchFrom(m, idx), steps).Continue?
  }

  lemma {:induction false} NeverEndsOtherwise(m: seq<nat>, n: nat, idx: nat, steps: nat)
    requires CountsDown(m) && n >= 2 && idx < |m|
    requires !HasRun(m, n) && !OneRun(m) && !(NoFree(m) && Border(m, idx))
    ensures SearchFor(m, n, SearchFrom(m, idx), steps).Continue?
  {
    if NoFree(m) {
      InsideMessageNeverEnds(m, n, SearchFrom(m, idx), steps);
    } else {
      var a := FirstFree(m, 0);
      var b: nat :| RunStart(m, b) && b != a;
      TwoRunsNeverEnd(m, n, a, b, SearchFrom(m, idx), steps);
    }
  }

  lemma {:induction false} EndsIf(m: seq<nat>, n: nat, idx: nat) returns (k: nat)
    requires CountsDown(m) && n >= 2 && idx < |m|
    requires HasRun(m, n) || OneRun(m) || (NoFree(m) && Border(m, idx))
    ensures !SearchFor(m, n, SearchFrom(m, idx), k).Continue?
  {
    if HasRun(m, n) {
      k := LongRunIsFound(m, n, idx);
    } else if OneRun(m) {
      k := OneRunEnds(m, n, idx);
    } else {
      k := LapEnds(m, n, SearchFrom(m, idx));
    }
  }

  /** Exactly when the search for n >= 2 blocks ends: there is a long enough row of free blocks, or
      there is only one row, or nothing is free and the read index does not point into the middle
      of a message.  In every other state the stop marker keeps moving, or is never met again. */
  lemma {:induction false} SearchEndsExactlyWhen(m: seq<nat>, n: nat, idx: nat)
    requires CountsDown(m) && n >= 2 && idx < |m|
    ensures SearchEnds(m, n, idx) <==>
              HasRun(m, n) || OneRun(m) || (NoFree(m) && Border(m, idx))
  {
    if HasRun(m, n) || OneRun(m) || (NoFree(m) && Border(m, idx)) {
      var k := EndsIf(m, n, idx);
    } else {
      forall steps: nat
        ensures SearchFor(m, n, SearchFrom(m, idx), steps).Continue?
      {
        NeverEndsOtherwise(m, n, idx, steps);
      }
    }
  }

  /** A queue filled with two messages of two blocks: the next two-block search never ends. */
  lemma {:induction false} FullQueueHangs(steps: nat)
    ensures CountsDown([2, 1, 2, 1])
    ensures SearchFor([2, 1, 2, 1], 2, SearchFrom([2, 1, 2, 1], 3), steps).Continue?
  {
    InsideMessageNeverEnds([2, 1, 2, 1], 2, SearchFrom([2, 1, 2, 1], 3), steps);
  }
}
