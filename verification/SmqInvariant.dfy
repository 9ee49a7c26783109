/** What holds between the block map, the rings and the data blocks of the shared-memory queue. */
module SmqInvariant {
  import opened SmqBlockMap

  newtype Byte = x: int | 0 <= x < 256

  const BLOCKSIZE := 128

  /** How many values the 16-bit fields of a node have. */
  const NODES := 0x1_0000

  datatype Node = Node(block: nat, count: nat)

  /** ALIGN(nsize, SM_BLOCKSIZE) / SM_BLOCKSIZE */
  function BlocksFor(nsize: nat): nat {
    (nsize + BLOCKSIZE - 1) / BLOCKSIZE
  }

  /** A message in the queue: its first block, its number of blocks, and what was sent. */
  datatype Message = Message(at: nat, count: nat, data: seq<Byte>)

  /** Its marks fit into the bytes of the block map, and its first block into a node. */
  predicate Representable(x: Message) {
    x.count <= 255 && x.at < NODES
  }

  // ----- rings --------------------------------------------------------------------------------

  /** The slot i places after r. */
  function Slot(len: nat, r: nat, i: nat): nat
    requires r < len && i < len
  {
    if r + i < len then r + i else r + i - len
  }

  function Next(len: nat, r: nat): nat
    requires r < len
  {
    if r + 1 == len then 0 else r + 1
  }

  /** The ring holds these nodes between its read and its write index. */
  predicate RingHolds(ring: seq<Node>, r: nat, w: nat, nodes: seq<Node>) {
    && r < |ring| && w < |ring| && |nodes| < |ring|
    && w == Slot(|ring|, r, |nodes|)
    && forall i :: 0 <= i < |nodes| ==> ring[Slot(|ring|, r, i)] == nodes[i]
  }

  lemma RingPush(ring: seq<Node>, r: nat, w: nat, nodes: seq<Node>, x: Node)
    requires RingHolds(ring, r, w, nodes) && |nodes| + 1 < |ring|
    ensures RingHolds(ring[w := x], r, Next(|ring|, w), nodes + [x])
  {
  }

  lemma RingPop(ring: seq<Node>, r: nat, w: nat, nodes: seq<Node>)
    requires RingHolds(ring, r, w, nodes) && nodes != []
    ensures r != w && ring[r] == nodes[0]
    ensures RingHolds(ring, Next(|ring|, r), w, nodes[1..])
  {
    assert ring[Slot(|ring|, r, 0)] == nodes[0];
    forall i | 0 <= i < |nodes| - 1
      ensures ring[Slot(|ring|, Next(|ring|, r), i)] == nodes[1..][i]
    {
      assert ring[Slot(|ring|, r, i + 1)] == nodes[i + 1];
    }
  }

  lemma RingEmpty(ring: seq<Node>, r: nat, w: nat, nodes: seq<Node>)
    requires RingHolds(ring, r, w, nodes)
    ensures r == w <==> nodes == []
  {
  }

  // ----- who holds which message ------------------------------------------------------------------

  function Starts(ms: seq<Message>): seq<nat> {
    seq(|ms|, i requires 0 <= i < |ms| => ms[i].at)
  }

  predicate Distinct(s: seq<nat>) {
    forall i, j :: 0 <= i < j < |s| ==> s[i] != s[j]
  }

  /** Messages that were sent, that the consumer holds, and that it has given back. */
  datatype Owners = Owners(flight: seq<Message>, held: map<nat, Message>, returned: seq<nat>)

  predicate Owned(o: Owners, b: nat) {
    b in Starts(o.flight) || b in o.held || b in o.returned
  }

  /** Each message of the block map is in exactly one of the three places, once. */
  ghost predicate Partition(m: seq<nat>, o: Owners) {
    && Distinct(Starts(o.flight)) && Distinct(o.returned)
    && (forall b :: b in Starts(o.flight) ==> b !in o.held && b !in o.returned)
    && (forall b :: b in o.held ==> b !in o.returned)
    && (forall b: nat :: MessageAt(m, b) <==> Owned(o, b))
  }

  /** A message matches its marks in the block map and its bytes are in its blocks. */
  predicate Intact(m: seq<nat>, blocks: seq<Byte>, x: Message) {
    && x.at < |m| && m[x.at] == x.count && x.at < NODES
    && x.count == BlocksFor(|x.data|)
    && BLOCKSIZE * (x.at + x.count) <= |blocks|
    && blocks[BLOCKSIZE * x.at..BLOCKSIZE * x.at + |x.data|] == x.data
  }

  ghost predicate AllIntact(m: seq<nat>, blocks: seq<Byte>, o: Owners) {
    && (forall i :: 0 <= i < |o.flight| ==> Intact(m, blocks, o.flight[i]))
    && (forall b :: b in o.held ==> o.held[b].at == b && Intact(m, blocks, o.held[b]))
  }

  lemma {:induction false} DistinctBound(s: seq<nat>, k: nat)
    requires Distinct(s) && forall i :: 0 <= i < |s| ==> s[i] < k
    ensures |s| <= k
    decreases k
  {
    if s != [] {
      assert s[0] < k;
      if j :| 0 <= j < |s| && s[j] == k - 1 {
        var t := s[..j] + s[j + 1..];
        DistinctBound(t, k - 1);
      } else {
        DistinctBound(s, k - 1);
      }
    }
  }

  /** Neither ring can fill up: there are fewer messages than the map has blocks, and so than
      either ring has nodes. */
  lemma NoRingFills(m: seq<nat>, o: Owners)
    requires Partition(m, o)
    ensures |o.flight| <= |m| && |o.returned| <= |m|
  {
    var fs := Starts(o.flight);
    forall i | 0 <= i < |fs|
      ensures fs[i] < |m|
    {
      assert fs[i] in fs && Owned(o, fs[i]);
    }
    DistinctBound(fs, |m|);
    forall i | 0 <= i < |o.returned|
      ensures o.returned[i] < |m|
    {
      assert o.returned[i] in o.returned && Owned(o, o.returned[i]);
    }
    DistinctBound(o.returned, |m|);
  }

  // ----- the four moves ------------------------------------------------------------------------------

  function Sent(o: Owners, x: Message): Owners {
    o.(flight := o.flight + [x])
  }

  function Received(o: Owners): Owners
    requires o.flight != []
  {
    o.(flight := o.flight[1..], held := o.held[o.flight[0].at := o.flight[0]])
  }

  function GivenBack(o: Owners, b: nat): Owners {
    o.(held := o.held - {b}, returned := o.returned + [b])
  }

  function Reclaimed(o: Owners): Owners
    requires o.returned != []
  {
    o.(returned := o.returned[1..])
  }

  lemma SentOwned(o: Owners, x: Message, b: nat)
    ensures Owned(Sent(o, x), b) <==> Owned(o, b) || b == x.at
    ensures Starts(Sent(o, x).flight) == Starts(o.flight) + [x.at]
  {
    assert Starts(Sent(o, x).flight) == Starts(o.flight) + [x.at];
  }

  lemma SentPartition(m: seq<nat>, o: Owners, x: Message)
    requires CountsDown(m) && Partition(m, o)
    requires x.count > 0 && RowAt(m, x.at, x.count)
    ensures Partition(Marked(m, x.at, x.count), Sent(o, x))
  {
    var m', o' := Marked(m, x.at, x.count), Sent(o, x);
    MarkedCountsDown(m, x.at, x.count);
    assert m[x.at] == 0;
    assert !Owned(o, x.at);
    forall b: nat
      ensures MessageAt(m', b) <==> Owned(o', b)
    {
      SentOwned(o, x, b);
    }
    SentOwned(o, x, 0);
  }

  lemma ReceivedPartition(m: seq<nat>, o: Owners)
    requires Partition(m, o) && o.flight != []
    ensures Partition(m, Received(o))
  {
    var o' := Received(o);
    var fs := Starts(o.flight);
    assert Starts(o'.flight) == fs[1..];
    assert fs[0] == o.flight[0].at && fs[0] in fs;
    forall b: nat
      ensures Owned(o', b) <==> Owned(o, b)
    {
      assert b in fs <==> b == fs[0] || b in fs[1..];
    }
  }

  lemma GivenBackPartition(m: seq<nat>, o: Owners, b: nat)
    requires Partition(m, o) && b in o.held
    ensures Partition(m, GivenBack(o, b))
  {
    var o' := GivenBack(o, b);
    forall c: nat
      ensures Owned(o', c) <==> Owned(o, c)
    {
      assert c in o'.returned <==> c in o.returned || c == b;
    }
  }

  lemma ReclaimedPartition(m: seq<nat>, o: Owners)
    requires CountsDown(m) && Partition(m, o) && o.returned != []
    ensures var b := o.returned[0];
            && MessageAt(m, b) && b + m[b] <= |m|
            && Partition(Erased(m, b), Reclaimed(o))
  {
    var b, o' := o.returned[0], Reclaimed(o);
    assert b in o.returned && Owned(o, b);
    MessageFits(m, b);
    var m' := Erased(m, b);
    assert o.returned == [b] + o'.returned;
    forall c: nat
      ensures MessageAt(m', c) <==> Owned(o', c)
    {
      assert Owned(o, c) <==> Owned(o', c) || c == b;
      if c != b {
        ErasedKeepsOthers(m, b, c);
      } else {
        assert m'[b] == 0;
        assert b !in o'.returned;
      }
    }
  }

  // ----- the bytes ---------------------------------------------------------------------------------

  lemma FreeDisjoint(m: seq<nat>, y: nat, b: nat, n: nat)
    requires CountsDown(m) && MessageAt(m, y) && n > 0 && RowAt(m, b, n)
    ensures y + m[y] <= b || b + n <= y
  {
    if y < b < y + m[y] {
      MessageExtent(m, y, b - y);
    }
  }

  /** The blocks with a message's bytes copied in. */
  function Copied(blocks: seq<Byte>, x: Message): seq<Byte>
    requires BLOCKSIZE * x.at + |x.data| <= |blocks|
  {
    blocks[..BLOCKSIZE * x.at] + x.data + blocks[BLOCKSIZE * x.at + |x.data|..]
  }

  lemma CopyKeeps(m: seq<nat>, blocks: seq<Byte>, x: Message, y: Message)
    requires Intact(m, blocks, y)
    requires |x.data| <= BLOCKSIZE * x.count && BLOCKSIZE * (x.at + x.count) <= |blocks|
    requires y.at + y.count <= x.at || x.at + x.count <= y.at
    ensures var blocks' := Copied(blocks, x);
            |blocks'| == |blocks| &&
            blocks'[BLOCKSIZE * y.at..BLOCKSIZE * y.at + |y.data|] == y.data
  {
    var blocks' := Copied(blocks, x);
    forall i | 0 <= i < |y.data|
      ensures blocks'[BLOCKSIZE * y.at + i] == y.data[i]
    {
      assert blocks[BLOCKSIZE * y.at..BLOCKSIZE * y.at + |y.data|][i] == blocks[BLOCKSIZE * y.at + i];
    }
  }

  /** Copying a new message into free blocks leaves every other message's bytes alone. */
  lemma SentIntact(m: seq<nat>, blocks: seq<Byte>, o: Owners, x: Message)
    requires CountsDown(m) && Partition(m, o) && AllIntact(m, blocks, o)
    requires x.count > 0 && RowAt(m, x.at, x.count) && x.at < NODES
    requires x.count == BlocksFor(|x.data|) && BLOCKSIZE * (x.at + x.count) <= |blocks|
    ensures AllIntact(Marked(m, x.at, x.count), Copied(blocks, x), Sent(o, x))
  {
    var m', blocks', o' := Marked(m, x.at, x.count), Copied(blocks, x), Sent(o, x);
    forall i | 0 <= i < |o.flight|
      ensures Intact(m', blocks', o.flight[i])
    {
      OwnedInFlight(o, i);
      FreeDisjoint(m, o.flight[i].at, x.at, x.count);
      CopyKeeps(m, blocks, x, o.flight[i]);
    }
    forall b | b in o.held
      ensures Intact(m', blocks', o.held[b])
    {
      assert Owned(o, b);
      FreeDisjoint(m, b, x.at, x.count);
      CopyKeeps(m, blocks, x, o.held[b]);
    }
    assert Intact(m', blocks', x);
  }

  lemma OwnedInFlight(o: Owners, i: nat)
    requires i < |o.flight|
    ensures Owned(o, o.flight[i].at)
  {
    assert Starts(o.flight)[i] == o.flight[i].at;
  }

  lemma ReclaimedIntact(m: seq<nat>, blocks: seq<Byte>, o: Owners)
    requires CountsDown(m) && Partition(m, o) && AllIntact(m, blocks, o) && o.returned != []
    requires MessageAt(m, o.returned[0]) && o.returned[0] + m[o.returned[0]] <= |m|
    ensures AllIntact(Erased(m, o.returned[0]), blocks, Reclaimed(o))
  {
    var b := o.returned[0];
    var m' := Erased(m, b);
    assert b in o.returned;
    forall i | 0 <= i < |o.flight|
      ensures Intact(m', blocks, o.flight[i])
    {
      OwnedInFlight(o, i);
      assert o.flight[i].at in Starts(o.flight) by { assert Starts(o.flight)[i] == o.flight[i].at; }
      ErasedKeepsOthers(m, b, o.flight[i].at);
    }
    forall c | c in o.held
      ensures Intact(m', blocks, o.held[c])
    {
      assert Owned(o, c);
      ErasedKeepsOthers(m, b, c);
    }
  }

  // ----- the whole queue ----------------------------------------------------------------------------

  function FlightNodes(ms: seq<Message>): seq<Node> {
    seq(|ms|, i requires 0 <= i < |ms| => Node(ms[i].at, ms[i].count))
  }

  function ReturnedNodes(bs: seq<nat>): seq<Node> {
    seq(|bs|, i requires 0 <= i < |bs| => Node(bs[i], 0))
  }

  /** A queue within one epoch: the producer's block map, the shared memory, the indices written by
      either side, where every message is, what was sent and which blocks were received so far. */
  datatype Queue = Queue(
    cells: seq<nat>,
    blocks: seq<Byte>,
    sent: seq<Node>,
    free: seq<Node>,
    sentWrite: nat,
    freeRead: nat,
    sentRead: nat,
    freeWrite: nat,
    owners: Owners,
    sentLog: seq<seq<Byte>>,
    receivedLog: seq<seq<Byte>>)

  predicate Sized(q: Queue) {
    && |q.cells| >= 1
    && |q.sent| == |q.cells| + 1 && |q.free| == |q.cells| + 1
    && |q.blocks| == BLOCKSIZE * (|q.cells| + 1)
  }

  ghost predicate Placed(q: Queue) {
    CountsDown(q.cells) && Partition(q.cells, q.owners) && AllIntact(q.cells, q.blocks, q.owners)
  }

  predicate RingsHold(q: Queue) {
    && RingHolds(q.sent, q.sentRead, q.sentWrite, FlightNodes(q.owners.flight))
    && RingHolds(q.free, q.freeRead, q.freeWrite, ReturnedNodes(q.owners.returned))
  }

  /** The blocks that were read start with the message, and are as many as it needs. */
  predicate Delivered(msg: seq<Byte>, data: seq<Byte>) {
    msg <= data && |data| == BLOCKSIZE * BlocksFor(|msg|)
  }

  /** First in, first out: the messages sent were received one by one, and the rest is in flight. */
  predicate InOrder(log: seq<seq<Byte>>, received: seq<seq<Byte>>, flight: seq<Message>) {
    && |log| == |received| + |flight|
    && (forall i :: 0 <= i < |received| ==> Delivered(log[i], received[i]))
    && forall i :: 0 <= i < |flight| ==> log[|received| + i] == flight[i].data
  }

  ghost predicate Inv(q: Queue) {
    Sized(q) && Placed(q) && RingsHold(q) && InOrder(q.sentLog, q.receivedLog, q.owners.flight)
  }

  /** smq_ctor on both sides, over memory with any contents. */
  function Initial(total: nat, contents: seq<Byte>): Queue
    requires total >= 2
  {
    Queue(seq(total - 1, _ => 0), contents, seq(total, _ => Node(0xFFFF, 0)), seq(total, _ => Node(0xFFFF, 0)),
          0, 0, 0, 0, Owners([], map[], []), [], [])
  }

  // ----- what the code does to the memory --------------------------------------------------------------

  datatype Event = SendEvent(x: Message) | ReceiveEvent | ReturnEvent(b: nat) | ReclaimEvent

  /** The tests of the code: the producer sends what the search has found blocks for and reclaims
      while there are returned nodes, the consumer receives while there are sent nodes.  What the
      consumer gives back is what it holds. */
  predicate Enabled(q: Queue, e: Event) {
    match e
    case SendEvent(x) => x.count > 0 && x.count == BlocksFor(|x.data|) && RowAt(q.cells, x.at, x.count)
    case ReceiveEvent => q.sentRead != q.sentWrite
    case ReturnEvent(b) => b in q.owners.held
    case ReclaimEvent => q.freeRead != q.freeWrite
  }

  /** Everything that the step reads or writes lies inside the memory it belongs to. */
  predicate InMemory(q: Queue, e: Event) {
    match e
    case SendEvent(x) =>
      q.sentWrite < |q.sent| && x.at + x.count <= |q.cells| && BLOCKSIZE * x.at + |x.data| <= |q.blocks|
    case ReceiveEvent =>
      q.sentRead < |q.sent| && BLOCKSIZE * (q.sent[q.sentRead].block + q.sent[q.sentRead].count) <= |q.blocks|
    case ReturnEvent(b) => q.freeWrite < |q.free|
    case ReclaimEvent =>
      && q.freeRead < |q.free| && q.free[q.freeRead].block < |q.cells|
      && q.free[q.freeRead].block + q.cells[q.free[q.freeRead].block] <= |q.cells|
  }

  /** A message is put into free blocks and its node is published. */
  function Send(q: Queue, x: Message): Queue
    requires InMemory(q, SendEvent(x))
  {
    q.(cells := MarkedBytes(q.cells, x.at, x.count),
       blocks := Copied(q.blocks, x),
       sent := q.sent[q.sentWrite := Node(x.at % NODES, x.count % NODES)],
       sentWrite := Next(|q.sent|, q.sentWrite),
       owners := Sent(q.owners, x),
       sentLog := q.sentLog + [x.data])
  }

  /** The consumer takes the oldest node and reads the blocks that it names. */
  function Receive(q: Queue): Queue
    requires InMemory(q, ReceiveEvent)
  {
    var node := q.sent[q.sentRead];
    q.(sentRead := Next(|q.sent|, q.sentRead),
       owners := if q.owners.flight == [] then q.owners else Received(q.owners),
       receivedLog := q.receivedLog + [q.blocks[BLOCKSIZE * node.block..BLOCKSIZE * (node.block + node.count)]])
  }

  /** The consumer gives the message at block b back. */
  function Return(q: Queue, b: nat): Queue
    requires InMemory(q, ReturnEvent(b))
  {
    q.(free := q.free[q.freeWrite := Node(b % NODES, 0)],
       freeWrite := Next(|q.free|, q.freeWrite),
       owners := GivenBack(q.owners, b))
  }

  /** The producer takes the blocks of the message at the oldest returned node back. */
  function Reclaim(q: Queue): Queue
    requires InMemory(q, ReclaimEvent)
  {
    q.(cells := Erased(q.cells, q.free[q.freeRead].block),
       freeRead := Next(|q.free|, q.freeRead),
       owners := if q.owners.returned == [] then q.owners else Reclaimed(q.owners))
  }

  function After(q: Queue, e: Event): Queue
    requires InMemory(q, e)
  {
    match e
    case SendEvent(x) => Send(q, x)
    case ReceiveEvent => Receive(q)
    case ReturnEvent(b) => Return(q, b)
    case ReclaimEvent => Reclaim(q)
  }

  predicate Steps(q: Queue, e: Event, q': Queue) {
    Enabled(q, e) && InMemory(q, e) && q' == After(q, e)
  }

  // ----- each step keeps the invariant -----------------------------------------------------------------

  lemma InitialInv(total: nat, contents: seq<Byte>)
    requires total >= 2 && |contents| == BLOCKSIZE * total
    ensures Inv(Initial(total, contents))
  {
    var q := Initial(total, contents);
    assert forall b: nat :: !MessageAt(q.cells, b) && !Owned(q.owners, b);
  }

  lemma SendRings(q: Queue, x: Message)
    requires Sized(q) && Placed(q) && RingsHold(q) && Representable(x)
    requires Enabled(q, SendEvent(x)) && InMemory(q, SendEvent(x))
    ensures RingsHold(Send(q, x))
  {
    SentPartition(q.cells, q.owners, x);
    NoRingFills(Marked(q.cells, x.at, x.count), Sent(q.owners, x));
    RingPush(q.sent, q.sentRead, q.sentWrite, FlightNodes(q.owners.flight), Node(x.at, x.count));
    assert FlightNodes(q.owners.flight + [x]) == FlightNodes(q.owners.flight) + [Node(x.at, x.count)];
  }

  lemma SendInOrder(log: seq<seq<Byte>>, received: seq<seq<Byte>>, flight: seq<Message>, x: Message)
    requires InOrder(log, received, flight)
    ensures InOrder(log + [x.data], received, flight + [x])
  {
  }

  lemma SendFits(q: Queue, x: Message)
    requires Inv(q) && Enabled(q, SendEvent(x)) && InMemory(q, SendEvent(x)) && Representable(x)
    ensures Inv(Send(q, x))
  {
    BytesAreMarks(q.cells, x.at, x.count);
    MarkedCountsDown(q.cells, x.at, x.count);
    SentPartition(q.cells, q.owners, x);
    SentIntact(q.cells, q.blocks, q.owners, x);
    SendRings(q, x);
    SendInOrder(q.sentLog, q.receivedLog, q.owners.flight, x);
  }

  /** A message that cannot be represented is not where its marks say. */
  lemma SendBreaks(q: Queue, x: Message)
    requires InMemory(q, SendEvent(x)) && !Representable(x) && x.count > 0
    ensures !Inv(Send(q, x))
  {
    BytesAreMarks(q.cells, x.at, x.count);
    var q' := Send(q, x);
    assert q'.owners.flight[|q.owners.flight|] == x;
    assert !Intact(q'.cells, q'.blocks, x);
  }

  /** Sending keeps the invariant exactly if the message can be represented. */
  lemma SendKeeps(q: Queue, x: Message)
    requires Inv(q) && Enabled(q, SendEvent(x))
    ensures InMemory(q, SendEvent(x))
    ensures Inv(Send(q, x)) <==> Representable(x)
  {
    assert BLOCKSIZE * (x.at + x.count) <= |q.blocks|;
    if Representable(x) {
      SendFits(q, x);
    } else {
      SendBreaks(q, x);
    }
  }

  /** The ring is empty exactly if nothing is in flight; otherwise its first node is that of the
      oldest message. */
  lemma ReceiveRings(q: Queue)
    requires RingsHold(q)
    ensures q.sentRead == q.sentWrite <==> q.owners.flight == []
    ensures q.owners.flight != [] ==>
              && q.sent[q.sentRead] == Node(q.owners.flight[0].at, q.owners.flight[0].count)
              && RingHolds(q.sent, Next(|q.sent|, q.sentRead), q.sentWrite, FlightNodes(q.owners.flight[1..]))
  {
    var nodes := FlightNodes(q.owners.flight);
    RingEmpty(q.sent, q.sentRead, q.sentWrite, nodes);
    if q.owners.flight != [] {
      RingPop(q.sent, q.sentRead, q.sentWrite, nodes);
      assert FlightNodes(q.owners.flight[1..]) == nodes[1..];
    }
  }

  lemma ReceiveIntact(m: seq<nat>, blocks: seq<Byte>, o: Owners)
    requires AllIntact(m, blocks, o) && o.flight != []
    ensures AllIntact(m, blocks, Received(o))
  {
  }

  /** The blocks of a message hold it. */
  lemma IntactDelivered(m: seq<nat>, blocks: seq<Byte>, x: Message)
    requires Intact(m, blocks, x)
    ensures Delivered(x.data, blocks[BLOCKSIZE * x.at..BLOCKSIZE * (x.at + x.count)])
  {
    var data := blocks[BLOCKSIZE * x.at..BLOCKSIZE * (x.at + x.count)];
    assert data[..|x.data|] == blocks[BLOCKSIZE * x.at..BLOCKSIZE * x.at + |x.data|];
  }

  /** One message more has been received. */
  lemma ReceiveInOrder(log: seq<seq<Byte>>, received: seq<seq<Byte>>, flight: seq<Message>, data: seq<Byte>)
    requires InOrder(log, received, flight) && flight != [] && Delivered(flight[0].data, data)
    ensures InOrder(log, received + [data], flight[1..])
  {
    assert log[|received| + 0] == flight[0].data;
    forall i | 0 <= i < |flight| - 1
      ensures log[|received| + 1 + i] == flight[1..][i].data
    {
      assert log[|received| + (i + 1)] == flight[i + 1].data;
    }
  }

  lemma ReceiveKeeps(q: Queue)
    requires Inv(q) && Enabled(q, ReceiveEvent)
    ensures InMemory(q, ReceiveEvent) && Inv(Receive(q))
  {
    ReceiveRings(q);
    var x := q.owners.flight[0];
    assert Intact(q.cells, q.blocks, x);
    IntactDelivered(q.cells, q.blocks, x);
    ReceiveInOrder(q.sentLog, q.receivedLog, q.owners.flight, q.blocks[BLOCKSIZE * x.at..BLOCKSIZE * (x.at + x.count)]);
    ReceivedPartition(q.cells, q.owners);
    ReceiveIntact(q.cells, q.blocks, q.owners);
  }

  lemma ReturnRings(q: Queue, b: nat)
    requires Sized(q) && RingsHold(q) && Partition(q.cells, GivenBack(q.owners, b)) && b < NODES
    ensures InMemory(q, ReturnEvent(b)) && RingsHold(Return(q, b))
  {
    NoRingFills(q.cells, GivenBack(q.owners, b));
    RingPush(q.free, q.freeRead, q.freeWrite, ReturnedNodes(q.owners.returned), Node(b, 0));
    assert ReturnedNodes(q.owners.returned + [b]) == ReturnedNodes(q.owners.returned) + [Node(b, 0)];
  }

  /** Giving a block back keeps the invariant exactly if the consumer holds the message there. */
  lemma ReturnKeeps(q: Queue, b: nat)
    requires Inv(q)
    ensures InMemory(q, ReturnEvent(b))
    ensures Inv(Return(q, b)) <==> b in q.owners.held
  {
    if b in q.owners.held {
      GivenBackPartition(q.cells, q.owners, b);
      ReturnRings(q, b);
    } else {
      NotHeld(q.cells, q.owners, b);
    }
  }

  /** What is not held is owned by someone else or by nobody. */
  lemma NotHeld(m: seq<nat>, o: Owners, b: nat)
    requires Partition(m, o) && b !in o.held
    ensures !Partition(m, GivenBack(o, b))
  {
    var o' := GivenBack(o, b);
    assert o'.returned[|o.returned|] == b && b in o'.returned;
    if b in o.returned {
      var i :| 0 <= i < |o.returned| && o.returned[i] == b;
      assert o'.returned[i] == b;
    } else if b !in Starts(o.flight) {
      assert !Owned(o, b) && Owned(o', b);
    }
  }

  lemma ReclaimRings(q: Queue)
    requires Sized(q) && RingsHold(q)
    ensures q.freeRead == q.freeWrite <==> q.owners.returned == []
    ensures q.owners.returned != [] ==>
              && q.free[q.freeRead].block == q.owners.returned[0]
              && RingHolds(q.free, Next(|q.free|, q.freeRead), q.freeWrite, ReturnedNodes(q.owners.returned[1..]))
  {
    var nodes := ReturnedNodes(q.owners.returned);
    RingEmpty(q.free, q.freeRead, q.freeWrite, nodes);
    if q.owners.returned != [] {
      RingPop(q.free, q.freeRead, q.freeWrite, nodes);
      assert ReturnedNodes(q.owners.returned[1..]) == nodes[1..];
    }
  }

  lemma ReclaimKeeps(q: Queue)
    requires Inv(q) && Enabled(q, ReclaimEvent)
    ensures InMemory(q, ReclaimEvent) && MessageAt(q.cells, q.free[q.freeRead].block)
    ensures Inv(Reclaim(q))
  {
    ReclaimRings(q);
    ReclaimedPartition(q.cells, q.owners);
    ErasedCountsDown(q.cells, q.owners.returned[0]);
    ReclaimedIntact(q.cells, q.blocks, q.owners);
  }

  // ----- every run ------------------------------------------------------------------------------------

  /** A run: the producer and the consumer interleaved in any way. */
  ghost predicate Run(qs: seq<Queue>, events: seq<Event>) {
    |qs| == |events| + 1 && forall i {:trigger StepAt(qs, events, i)} :: 0 <= i < |events| ==> StepAt(qs, events, i)
  }

  predicate StepAt(qs: seq<Queue>, events: seq<Event>, i: int) {
    0 <= i < |events| && i + 1 < |qs| && Steps(qs[i], events[i], qs[i + 1])
  }

  /** Every message that is sent can be represented. */
  predicate AllRepresentable(events: seq<Event>) {
    forall i :: 0 <= i < |events| && events[i].SendEvent? ==> Representable(events[i].x)
  }

  /** The messages that the send events of a run put into the queue, in order. */
  function SentBy(events: seq<Event>): seq<seq<Byte>> {
    if events == [] then []
    else
      var last := events[|events| - 1];
      SentBy(events[..|events| - 1]) + (if last.SendEvent? then [last.x.data] else [])
  }

  lemma {:induction false} StepKeeps(q: Queue, e: Event, q': Queue)
    requires Inv(q) && Steps(q, e, q') && (e.SendEvent? ==> Representable(e.x))
    ensures Inv(q') && q'.sentLog == q.sentLog + (if e.SendEvent? then [e.x.data] else [])
  {
    match e
    case SendEvent(x) => SendKeeps(q, x);
    case ReceiveEvent => ReceiveKeeps(q);
    case ReturnEvent(b) => ReturnKeeps(q, b);
    case ReclaimEvent => ReclaimKeeps(q);
  }

  lemma {:induction false} SentByNext(events: seq<Event>, n: nat)
    requires 0 < n <= |events|
    ensures SentBy(events[..n]) ==
            SentBy(events[..n - 1]) + (if events[n - 1].SendEvent? then [events[n - 1].x.data] else [])
  {
    assert events[..n][..n - 1] == events[..n - 1];
  }

  lemma {:induction false} RunKeeps(qs: seq<Queue>, events: seq<Event>, n: nat)
    requires Run(qs, events) && AllRepresentable(events) && Inv(qs[0]) && n <= |events|
    ensures Inv(qs[n]) && qs[n].sentLog == qs[0].sentLog + SentBy(events[..n])
    decreases n
  {
    if n > 0 {
      RunKeeps(qs, events, n - 1);
      assert StepAt(qs, events, n - 1);
      StepKeeps(qs[n - 1], events[n - 1], qs[n]);
      SentByNext(events, n);
    }
  }

  /** Over every run the blocks that the consumer has read start, in order and byte for byte, with
      the messages that the producer sent, and the rest of the messages is still in flight. */
  lemma DeliversInOrder(total: nat, contents: seq<Byte>, qs: seq<Queue>, events: seq<Event>)
    requires total >= 2 && |contents| == BLOCKSIZE * total
    requires Run(qs, events) && AllRepresentable(events) && qs[0] == Initial(total, contents)
    ensures Inv(qs[|events|])
    ensures InOrder(SentBy(events), qs[|events|].receivedLog, qs[|events|].owners.flight)
  {
    InitialInv(total, contents);
    RunKeeps(qs, events, |events|);
    assert events[..|events|] == events;
    assert qs[0].sentLog + SentBy(events) == SentBy(events);
  }

  /** In no run does either side reach outside the memory that a step belongs to. */
  lemma StaysInMemory(total: nat, contents: seq<Byte>, qs: seq<Queue>, events: seq<Event>, n: nat, e: Event)
    requires total >= 2 && |contents| == BLOCKSIZE * total
    requires Run(qs, events) && AllRepresentable(events) && qs[0] == Initial(total, contents)
    requires n <= |events| && Enabled(qs[n], e)
    ensures InMemory(qs[n], e)
  {
    InitialInv(total, contents);
    RunKeeps(qs, events, n);
    match e
    case SendEvent(x) => SendKeeps(qs[n], x);
    case ReceiveEvent => ReceiveKeeps(qs[n]);
    case ReturnEvent(b) => ReturnKeeps(qs[n], b);
    case ReclaimEvent => ReclaimKeeps(qs[n]);
  }

  /** From a fresh queue of five blocks, two messages of two blocks each bring the map to the state in
      which the search for two blocks never ends (FullQueueHangs). */
  lemma TwoSendsFill(contents: seq<Byte>, d0: seq<Byte>, d1: seq<Byte>) returns (qs: seq<Queue>, events: seq<Event>)
    requires |contents| == BLOCKSIZE * 5 && BlocksFor(|d0|) == 2 && BlocksFor(|d1|) == 2
    ensures events == [SendEvent(Message(0, 2, d0)), SendEvent(Message(2, 2, d1))] && AllRepresentable(events)
    ensures Run(qs, events) && qs[0] == Initial(5, contents)
    ensures qs[0].cells == [0, 0, 0, 0] && qs[1].cells == [2, 1, 0, 0] && qs[2].cells == [2, 1, 2, 1]
  {
    var x0, x1 := Message(0, 2, d0), Message(2, 2, d1);
    TwoMarks();
    var q0 := Initial(5, contents);
    assert q0.cells == [0, 0, 0, 0];
    var q1 := SendOne(q0, x0);
    var q2 := SendOne(q1, x1);
    events := [SendEvent(x0), SendEvent(x1)];
    qs := [q0, q1, q2];
    assert StepAt(qs, events, 0) && StepAt(qs, events, 1);
  }

  lemma TwoMarks()
    ensures MarkedBytes([0, 0, 0, 0], 0, 2) == [2, 1, 0, 0] && MarkedBytes([2, 1, 0, 0], 2, 2) == [2, 1, 2, 1]
  {
  }

  lemma SendOne(q: Queue, x: Message) returns (q': Queue)
    requires Enabled(q, SendEvent(x)) && InMemory(q, SendEvent(x))
    ensures Steps(q, SendEvent(x), q') && q'.cells == MarkedBytes(q.cells, x.at, x.count)
    ensures |q'.sent| == |q.sent| && |q'.blocks| == |q.blocks| && q'.sentWrite == Next(|q.sent|, q.sentWrite)
  {
    q' := Send(q, x);
  }

  /** A message of 256 blocks, sent into a new queue of 300: its first block counts as free while the
      message is in flight, so the next message of one block may be put over it. */
  lemma LongMessageLosesBlock(contents: seq<Byte>, d: seq<Byte>, d': seq<Byte>) returns (q: Queue)
    requires |contents| == BLOCKSIZE * 300 && BlocksFor(|d|) == 256 && BlocksFor(|d'|) == 1
    ensures Steps(Initial(300, contents), SendEvent(Message(0, 256, d)), q)
    ensures q.owners.flight == [Message(0, 256, d)] && q.cells[0] == 0 && q.cells[1] == 255 && !Inv(q)
    ensures Enabled(q, SendEvent(Message(0, 1, d')))
    ensures Send(q, Message(0, 1, d')).blocks[..|d'|] == d'
  {
    var x := Message(0, 256, d);
    q := SendOne(Initial(300, contents), x);
    assert q == Send(Initial(300, contents), x);
    SendBreaks(Initial(300, contents), x);
  }

  /** Where the two searches find their blocks; the second one starts where the first one ended. */
  lemma FirstSearches()
    ensures SearchFor([0, 0, 0, 0], 2, SearchFrom([0, 0, 0, 0], 0), 2) == Found(0, 1)
    ensures SearchFor([2, 1, 0, 0], 2, SearchFrom([2, 1, 0, 0], 1), 3) == Found(2, 3)
  {
    var m := [2, 1, 0, 0];
    assert Iterate(m, 2, Search(1, 1, 4, 0)) == Continue(Search(2, 1, 4, 0));
    assert Iterate(m, 2, Search(2, 1, 4, 0)) == Continue(Search(3, 2, 2, 1));
  }

  /** Block i belongs to the message that starts at b. */
  predicate Covers(m: seq<nat>, b: nat, i: nat) {
    MessageAt(m, b) && b <= i < b + m[b]
  }

  lemma {:induction false} CoveringMessage(m: seq<nat>, i: nat) returns (b: nat)
    requires CountsDown(m) && i < |m| && m[i] != 0
    ensures Covers(m, b, i)
    decreases i
  {
    if Border(m, i) {
      b := i;
    } else {
      b := CoveringMessage(m, i - 1);
      MessageExtent(m, b, i - 1 - b);
    }
  }

  /** At any time every block is free or in exactly one message, and that message is in exactly one
      place: sent and not yet received, held by the consumer, or given back. */
  lemma EveryBlockHasOnePlace(q: Queue, i: nat)
    requires Inv(q) && i < |q.cells|
    ensures q.cells[i] == 0 ==> forall b: nat :: !Covers(q.cells, b, i)
    ensures q.cells[i] != 0 ==>
              exists b: nat ::
                && Covers(q.cells, b, i)
                && (forall c: nat :: Covers(q.cells, c, i) ==> c == b)
                && (b in Starts(q.owners.flight) || b in q.owners.held || b in q.owners.returned)
                && !(b in Starts(q.owners.flight) && b in q.owners.held)
                && !(b in Starts(q.owners.flight) && b in q.owners.returned)
                && !(b in q.owners.held && b in q.owners.returned)
  {
    var m := q.cells;
    if m[i] == 0 {
      forall b: nat
        ensures !Covers(m, b, i)
      {
        if MessageAt(m, b) && b <= i < b + m[b] {
          MessageExtent(m, b, i - b);
        }
      }
    } else {
      var b := CoveringMessage(m, i);
      forall c: nat | Covers(m, c, i)
        ensures c == b
      {
        if c < b {
          MessagesDisjoint(m, c, b);
        } else if b < c {
          MessagesDisjoint(m, b, c);
        }
      }
      assert Owned(q.owners, b);
    }
  }

  // ----- the layout of the shared memory ---------------------------------------------------------------

  /** smq_ctor: how many blocks fit into a region of `size` bytes at an 8-aligned address, after the
      2-byte header, two state records of 16 bytes and two 4-byte nodes per block. */
  function NumBlocks(size: nat): int {
    (size - 8 - 16 - 16) / (BLOCKSIZE + 4 * 2)
  }

  /** The data blocks, the producer's record and ring and the consumer's record and ring follow each
      other without overlap inside the region. */
  lemma LayoutFits(size: nat)
    requires size >= 40
    ensures var n := NumBlocks(size);
            var out := 8 + n * BLOCKSIZE;
            var in_ := out + 16 + n * 4;
            n >= 0 && 8 <= out < in_ && in_ + 16 + n * 4 <= size
    ensures NumBlocks(16 * 1024 / 2) == 59
  {
  }
}
