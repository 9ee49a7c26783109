/** The shared-memory queue of drivers/char/rdbg.c: a producer and a consumer on different
    processors, a block allocator on the producer's side, and two rings of nodes. */
module SmqQueue {
  import opened SmqBlockMap
  import opened SmqInvariant

  // ----- the block map object -----------------------------------------------------------------

  /** Searching: the loop had not ended after the given number of iterations. */
  datatype GetResult = Got(at: nat) | Full | Searching

  class BlockMap {
    const numBlocks: nat
    const cells: array<nat>
    var indexRead: nat

    ghost predicate Valid()
      reads this, cells
    {
      && cells.Length == numBlocks + 1
      && indexRead < numBlocks
      && CountsDown(Cells())
    }

    ghost function Cells(): seq<nat>
      requires cells.Length == numBlocks + 1
      reads cells
    {
      cells[..numBlocks]
    }

    /** smq_blockmap_ctor: one block fewer is handed out than the queue has. */
    constructor (total: nat)
      requires total >= 2
      ensures Valid() && fresh(cells) && numBlocks == total - 1
      ensures FreeRun(Cells(), 0, numBlocks)
    {
      numBlocks := total - 1;
      cells := new nat[total](_ => 0);
      indexRead := 0;
    }

    /** Move the read index to the next free block, or once round. */
    method FindFree() returns (found: bool)
      requires Valid()
      modifies this`indexRead
      ensures Valid()
      ensures if found then cells[indexRead] == 0 else NoFree(Cells())
    {
      var start := indexRead;
      ghost var seen := 0;
      while true
        invariant Valid() && start < numBlocks && 0 <= seen < numBlocks
        invariant indexRead == if start + seen < numBlocks then start + seen else start + seen - numBlocks
        invariant forall i :: 0 <= i < numBlocks && Ahead(numBlocks, start, i) < seen ==> cells[i] != 0
        decreases numBlocks - seen
      {
        if cells[indexRead] == 0 {
          return true;
        }
        indexRead := Wrap(indexRead + 1, numBlocks);
        seen := seen + 1;
        if start == indexRead {
          return false;
        }
      }
    }

    /** smq_blockmap_get for a single block. */
    method GetOne() returns (r: GetResult)
      requires Valid()
      modifies this`indexRead, cells
      ensures Valid() && !r.Searching?
      ensures r.Got? ==> RowAt(old(Cells()), r.at, 1) && Cells() == Marked(old(Cells()), r.at, 1)
      ensures r.Full? ==> Cells() == old(Cells()) && NoFree(Cells())
    {
      var found := FindFree();
      if !found {
        return Full;
      }
      MarkedCountsDown(Cells(), indexRead, 1);
      r := Got(indexRead);
      cells[indexRead] := 1;
      assert Cells() == Marked(old(Cells()), indexRead, 1);
      indexRead := Wrap(indexRead + 1, numBlocks);
    }

    /** smq_blockmap_get for several blocks, or for none, which are never found.  The loop has no
        bound of its own; `steps` is how many iterations are observed. */
    method GetMany(n: nat, steps: nat) returns (r: GetResult)
      requires Valid() && n != 1
      modifies this`indexRead, cells
      ensures indexRead < numBlocks && (n <= 255 ==> Valid())
      ensures r.Got? ==> n > 0 && RowAt(old(Cells()), r.at, n) && Cells() == MarkedBytes(old(Cells()), r.at, n)
      ensures !r.Got? ==> Valid() && Cells() == old(Cells())
      ensures r.Full? && n > 0 ==> !HasRun(Cells(), n)
      ensures r.Searching? ==> SearchFor(old(Cells()), n, SearchFrom(old(Cells()), old(indexRead)), steps).Continue?
    {
      ghost var m, from := Cells(), SearchFrom(Cells(), indexRead);
      var s := Search(indexRead, indexRead, numBlocks, 0);
      var k := 0;
      while k < steps
        invariant 0 <= k <= steps && Valid() && Cells() == m && indexRead == s.idx
        invariant InBounds(m, s) && (n > 0 ==> Counting(m, n, s))
        invariant SearchFor(m, n, from, k) == Continue(s)
      {
        var step := Look(n, s);
        if n > 0 {
          IterateCounts(m, n, s);
        }
        SearchCompose(m, n, from, k, 1);
        k := k + 1;
        if step.Found? {
          Mark(step.at, n);
          indexRead := step.last;
          return Got(step.at);
        } else if step.NoMemory? {
          indexRead := step.idx;
          if n > 0 {
            GivesUpOnlyWithoutRun(m, n, from.idx, k);
          }
          return Full;
        }
        s := step.s;
        indexRead := s.idx;
      }
      r := Searching;
    }

    /** The body of the search loop. */
    method Look(n: nat, s: Search) returns (step: Step)
      requires Valid() && InBounds(Cells(), s)
      ensures step == Iterate(Cells(), n, s)
    {
      var idx, start, mark, found := s.idx, s.start, s.mark, s.found;
      if cells[idx] == 0 {
        if mark > idx {
          mark, start, found := idx, idx, 0;
        }
        found := found + 1;
        if found == n {
          return Found(mark, idx);
        }
      } else {
        MessageFits(Cells(), idx);
        found := 0;
        idx := idx + cells[idx] - 1;
        mark := numBlocks;
      }
      idx := Wrap(idx + 1, numBlocks);
      return if start == idx then NoMemory(idx) else Continue(Search(idx, start, mark, found));
    }

    method Mark(b: nat, n: nat)
      requires Valid() && n > 0 && RowAt(Cells(), b, n)
      modifies cells
      ensures Cells() == MarkedBytes(old(Cells()), b, n) && (n <= 255 ==> Valid())
    {
      ghost var m := Cells();
      WriteCounts(b, n);
      MarkedCountsDown(m, b, n);
      BytesAreMarks(m, b, n);
    }

    method WriteCounts(b: nat, n: nat)
      requires cells.Length == numBlocks + 1 && b + n <= numBlocks
      modifies cells
      ensures Cells() == MarkedBytes(old(Cells()), b, n)
    {
      ghost var m := Cells();
      var i := 0;
      while i < n
        invariant 0 <= i <= n
        invariant forall j :: 0 <= j < numBlocks ==> cells[j] == if b <= j < b + i then (b + n - j) % 256 else m[j]
      {
        cells[b + i] := (n - i) % 256;
        i := i + 1;
      }
    }

    method Get(n: nat, steps: nat) returns (r: GetResult)
      requires Valid()
      modifies this`indexRead, cells
      ensures indexRead < numBlocks && (n <= 255 ==> Valid())
      ensures r.Got? ==> n > 0 && RowAt(old(Cells()), r.at, n) && Cells() == MarkedBytes(old(Cells()), r.at, n)
      ensures !r.Got? ==> Valid() && Cells() == old(Cells())
      ensures r.Full? && n > 0 ==> !HasRun(Cells(), n)
      ensures r.Searching? ==>
                n != 1 && SearchFor(old(Cells()), n, SearchFrom(old(Cells()), old(indexRead)), steps).Continue?
    {
      if n == 1 {
        r := GetOne();
        if r.Full? {
          NoFreeNoRun(Cells(), 1);
        } else {
          BytesAreMarks(old(Cells()), r.at, 1);
        }
      } else {
        r := GetMany(n, steps);
      }
    }

    /** smq_blockmap_put */
    method Put(b: nat)
      requires Valid() && MessageAt(Cells(), b)
      modifies cells
      ensures b + old(Cells())[b] <= numBlocks
      ensures Valid() && Cells() == Erased(old(Cells()), b)
    {
      ghost var m := Cells();
      MessageFits(m, b);
      ErasedCountsDown(m, b);
      var count, i := cells[b], b;
      while count > 0
        invariant b <= i && i + count == b + m[b]
        invariant forall j :: 0 <= j < numBlocks ==> cells[j] == if b <= j < i then 0 else m[j]
      {
        cells[i] := 0;
        i, count := i + 1, count - 1;
      }
      assert Cells() == Erased(m, b);
    }
  }

  // ----- the queue ------------------------------------------------------------------------------

  /** smq_alloc_send, smq_receive and smq_free return codes, with what comes back on success. */
  datatype SendResult = SendOk | NoSpace | StillSearching
  datatype ReceiveResult = Underflow | Arrived(at: nat, data: seq<Byte>, more: bool)
  datatype FreeResult = FreeOk | BadParm

  class SharedQueue {
    const total: nat
    const blockMap: BlockMap
    // shared memory: the data blocks and the two rings of nodes
    var blocks: seq<Byte>
    var sent: seq<Node>
    var free: seq<Node>
    // written by the producer
    var sentWrite: nat
    var freeRead: nat
    // written by the consumer
    var sentRead: nat
    var freeWrite: nat
    // where every message is, and the history of both sides
    ghost var owners: Owners
    ghost var sentLog: seq<seq<Byte>>
    ghost var receivedLog: seq<seq<Byte>>

    ghost function State(): Queue
      requires blockMap.cells.Length == blockMap.numBlocks + 1
      reads this, blockMap, blockMap.cells
    {
      Queue(blockMap.Cells(), blocks, sent, free, sentWrite, freeRead, sentRead, freeWrite,
            owners, sentLog, receivedLog)
    }

    ghost predicate Valid()
      reads this, blockMap, blockMap.cells
    {
      blockMap.Valid() && total == blockMap.numBlocks + 1 && Inv(State())
    }

    constructor (total: nat, contents: seq<Byte>)
      requires total >= 2 && |contents| == BLOCKSIZE * total
      ensures Valid() && fresh(blockMap) && fresh(blockMap.cells)
      ensures State() == Initial(total, contents)
    {
      this.total := total;
      blockMap := new BlockMap(total);
      blocks := contents;
      sent := seq(total, _ => Node(0xFFFF, 0));
      free := seq(total, _ => Node(0xFFFF, 0));
      sentWrite, freeRead, sentRead, freeWrite := 0, 0, 0, 0;
      owners, sentLog, receivedLog := Owners([], map[], []), [], [];
      new;
      InitialInv(total, contents);
      assert blockMap.Cells() == seq(total - 1, _ => 0);
      assert State() == Initial(total, contents);
    }

    /** One round of the loop in smq_alloc_send that takes returned blocks back. */
    method ReclaimOne()
      requires Valid() && freeRead != freeWrite
      modifies this`freeRead, this`owners, blockMap.cells
      ensures Valid() && Steps(old(State()), ReclaimEvent, State())
    {
      ghost var q := State();
      ReclaimRings(q);
      ReclaimKeeps(q);
      assert blockMap.Cells() == q.cells;
      blockMap.Put(free[freeRead].block);
      freeRead := Next(total, freeRead);
      owners := Reclaimed(owners);
      assert State() == SmqInvariant.Reclaim(q);
    }

    method Reclaim()
      requires Valid()
      modifies this`freeRead, this`owners, blockMap.cells
      ensures Valid() && owners == old(owners).(returned := [])
    {
      while freeRead != freeWrite
        invariant Valid() && owners == old(owners).(returned := owners.returned)
        decreases |owners.returned|
      {
        ReclaimOne();
      }
      ReclaimRings(State());
    }

    /** The rest of smq_alloc_send: take blocks, copy the message, publish its node. */
    method Post(msg: seq<Byte>, steps: nat) returns (r: SendResult, ghost x: Message)
      requires Valid()
      modifies this`blocks, this`sent, this`sentWrite, this`owners, this`sentLog
      modifies blockMap`indexRead, blockMap.cells
      ensures x.data == msg && x.count == BlocksFor(|msg|)
      ensures r.SendOk? ==> Steps(old(State()), SendEvent(x), State()) && (Valid() <==> Representable(x))
      ensures !r.SendOk? ==> Valid() && State() == old(State())
      ensures r.NoSpace? && msg != [] ==> !HasRun(blockMap.Cells(), BlocksFor(|msg|))
      ensures r.StillSearching? ==>
                SearchFor(blockMap.Cells(), BlocksFor(|msg|),
                          SearchFrom(blockMap.Cells(), old(blockMap.indexRead)), steps).Continue?
    {
      ghost var q := State();
      var n := BlocksFor(|msg|);
      var g := blockMap.Get(n, steps);
      if !g.Got? {
        r := if g.Full? then NoSpace else StillSearching;
        x := Message(0, n, msg);
        return;
      }
      x := Message(g.at, n, msg);
      SendKeeps(q, x);
      Publish(g.at, n, msg);
      assert State() == Send(q, x);
      r := SendOk;
    }

    /** The copy into the blocks, the node and the new write index. */
    method Publish(at: nat, n: nat, msg: seq<Byte>)
      requires sentWrite < |sent| == total && BLOCKSIZE * at + |msg| <= |blocks|
      modifies this`blocks, this`sent, this`sentWrite, this`owners, this`sentLog
      ensures blocks == Copied(old(blocks), Message(at, n, msg))
      ensures sent == old(sent)[old(sentWrite) := Node(at % NODES, n % NODES)]
      ensures sentWrite == Next(total, old(sentWrite))
      ensures owners == Sent(old(owners), Message(at, n, msg)) && sentLog == old(sentLog) + [msg]
    {
      blocks := blocks[..BLOCKSIZE * at] + msg + blocks[BLOCKSIZE * at + |msg|..];
      sent := sent[sentWrite := Node(at % NODES, n % NODES)];
      sentWrite := Next(total, sentWrite);
      owners := Sent(owners, Message(at, n, msg));
      sentLog := sentLog + [msg];
    }

    /** smq_alloc_send: the queue stays in order exactly if what was sent can be represented. */
    method AllocSend(msg: seq<Byte>, steps: nat) returns (r: SendResult, ghost x: Message)
      requires Valid()
      modifies this`freeRead, this`blocks, this`sent, this`sentWrite, this`owners, this`sentLog
      modifies blockMap`indexRead, blockMap.cells
      ensures x.data == msg && x.count == BlocksFor(|msg|)
      ensures Valid() <==> !r.SendOk? || Representable(x)
      ensures owners == Owners(old(owners).flight + (if r.SendOk? then [x] else []), old(owners).held, [])
      ensures sentLog == old(sentLog) + (if r.SendOk? then [msg] else [])
      ensures !r.SendOk? ==> blocks == old(blocks)
      ensures r.NoSpace? && msg != [] ==> !HasRun(blockMap.Cells(), BlocksFor(|msg|))
      ensures r.StillSearching? ==>
                SearchFor(blockMap.Cells(), BlocksFor(|msg|),
                          SearchFrom(blockMap.Cells(), old(blockMap.indexRead)), steps).Continue?
    {
      Reclaim();
      r, x := Post(msg, steps);
    }

    /** smq_receive: the consumer gets whole blocks, with the message at their front. */
    method Receive() returns (r: ReceiveResult)
      requires Valid()
      modifies this`sentRead, this`owners, this`receivedLog
      ensures Valid()
      ensures r.Underflow? <==> old(owners).flight == []
      ensures r.Underflow? ==> State() == old(State())
      ensures r.Arrived? ==>
                && Steps(old(State()), ReceiveEvent, State()) && receivedLog == old(receivedLog) + [r.data]
                && r.at == old(owners).flight[0].at && Delivered(old(owners).flight[0].data, r.data)
                && r.more == (owners.flight != [])
    {
      ghost var q := State();
      ReceiveRings(q);
      if sentRead == sentWrite {
        return Underflow;
      }
      ReceiveKeeps(q);
      IntactDelivered(q.cells, q.blocks, q.owners.flight[0]);
      var node := sent[sentRead];
      var data := blocks[BLOCKSIZE * node.block..BLOCKSIZE * (node.block + node.count)];
      sentRead := Next(total, sentRead);
      owners := Received(owners);
      receivedLog := receivedLog + [data];
      assert State() == SmqInvariant.Receive(q);
      ReceiveRings(State());
      r := Arrived(node.block, data, sentRead != sentWrite);
    }

    /** smq_free: give back the block that a pointer into the data blocks points to.  The queue stays
        in order exactly if the consumer holds the message that starts there. */
    method Free(pointer: nat) returns (r: FreeResult)
      requires Valid()
      modifies this`free, this`freeWrite, this`owners
      ensures r.BadParm? <==> pointer / BLOCKSIZE >= total
      ensures r.BadParm? ==> Valid() && State() == old(State())
      ensures r.FreeOk? ==>
                && InMemory(old(State()), ReturnEvent(pointer / BLOCKSIZE))
                && State() == Return(old(State()), pointer / BLOCKSIZE)
                && (Valid() <==> pointer / BLOCKSIZE in old(owners).held)
    {
      var b := pointer / BLOCKSIZE;
      if b >= total {
        return BadParm;
      }
      ghost var q := State();
      ReturnKeeps(q, b);
      free := free[freeWrite := Node(b % NODES, 0)];
      freeWrite := Next(total, freeWrite);
      owners := GivenBack(owners, b);
      assert State() == Return(q, b);
      return FreeOk;
    }
  }
}
