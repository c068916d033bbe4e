/** The sender's queues as values: what can happen to them, and what every sequence
    of such operations keeps. `handed` logs the packets given to Steam, `flushed`
    those of them that came out of a queue, and `produced` every packet built, in
    order; the position in `produced` is a packet's serial number. */
module SendQueue {
  import opened Framing

  datatype Item = Item(client: ClientId, serial: nat, packet: Bytes)

  datatype Queues = Queues(
    pending: map<ClientId, seq<Item>>, order: seq<ClientId>,
    handed: seq<Item>, flushed: seq<Item>, produced: seq<Item>)

  datatype Op =
    | Push(client: ClientId, packet: Bytes)
    | Direct(client: ClientId, packet: Bytes)
    | Rotate
    | Drop(client: ClientId)

  const EMPTY := Queues(map[], [], [], [], [])

  function Queue(q: Queues, id: ClientId): seq<Item> {
    if id in q.pending then q.pending[id] else []
  }

  function Without(order: seq<ClientId>, id: ClientId): (r: seq<ClientId>)
    ensures forall c :: c in r <==> c in order && c != id
  {
    if order == [] then []
    else if order[0] == id then Without(order[1..], id)
    else [order[0]] + Without(order[1..], id)
  }

  function Do(q: Queues, op: Op): Queues {
    match op
    case Push(id, packet) =>
      var item := Item(id, |q.produced|, packet);
      q.(produced := q.produced + [item],
         pending := q.pending[id := Queue(q, id) + [item]],
         order := if Queue(q, id) == [] && id !in q.order then q.order + [id] else q.order)
    case Direct(id, packet) =>
      var item := Item(id, |q.produced|, packet);
      q.(produced := q.produced + [item], handed := q.handed + [item])
    case Rotate =>
      if q.order == [] || Queue(q, q.order[0]) == [] then q
      else
        var id := q.order[0];
        var item, rest := q.pending[id][0], q.pending[id][1..];
        q.(handed := q.handed + [item], flushed := q.flushed + [item],
           pending := if rest == [] then q.pending - {id} else q.pending[id := rest],
           order := if rest == [] then q.order[1..] else q.order[1..] + [id])
    case Drop(id) =>
      q.(pending := q.pending - {id}, order := Without(q.order, id))
  }

  function DoAll(q: Queues, ops: seq<Op>): Queues {
    if ops == [] then q else Do(DoAll(q, ops[..|ops| - 1]), ops[|ops| - 1])
  }

  lemma {:induction false} DoAllFront(q: Queues, ops: seq<Op>)
    requires ops != []
    ensures DoAll(q, ops) == DoAll(Do(q, ops[0]), ops[1..])
  {
    var n := |ops| - 1;
    if n > 0 {
      DoAllFront(q, ops[..n]);
      assert ops[..n][1..] == ops[1..][..n - 1];
    } else {
      assert ops[..n] == [];
    }
  }

  lemma {:induction false} DoAllAppend(q: Queues, a: seq<Op>, b: seq<Op>)
    ensures DoAll(q, a + b) == DoAll(DoAll(q, a), b)
  {
    if b == [] {
      assert a + b == a;
    } else {
      var n := |b| - 1;
      assert (a + b)[..|a + b| - 1] == a + b[..n];
      DoAllAppend(q, a, b[..n]);
    }
  }

  // ----- the tables agree -----

  ghost predicate Distinct(order: seq<ClientId>) {
    forall i, j | 0 <= i < j < |order| :: order[i] != order[j]
  }

  /** The order lists, once each, exactly the clients with something queued. */
  ghost predicate Consistent(order: seq<ClientId>, pending: map<ClientId, seq<Item>>) {
    && Distinct(order)
    && (forall id :: id in order <==> id in pending)
    && (forall id | id in pending :: pending[id] != [] && forall item | item in pending[id] :: item.client == id)
  }

  ghost predicate Numbered(produced: seq<Item>) {
    forall k | 0 <= k < |produced| :: produced[k].serial == k
  }

  ghost predicate WellFormed(q: Queues) {
    Consistent(q.order, q.pending) && Numbered(q.produced)
  }

  lemma {:induction false} WithoutKeepsDistinct(order: seq<ClientId>, id: ClientId)
    requires Distinct(order)
    ensures Distinct(Without(order, id))
  {
    if order != [] {
      assert order[0] !in order[1..];
      WithoutKeepsDistinct(order[1..], id);
    }
  }

  lemma DistinctFront(order: seq<ClientId>)
    requires Distinct(order) && order != []
    ensures Distinct(order[1..]) && order[0] !in order[1..]
    ensures forall c :: c in order <==> c == order[0] || c in order[1..]
  {}

  lemma RotateConsistent(q: Queues)
    requires WellFormed(q) && q.order != []
    ensures WellFormed(Do(q, Rotate))
    ensures Queue(q, q.order[0]) != [] && Queue(q, q.order[0])[0].client == q.order[0]
  {
    var id := q.order[0];
    DistinctFront(q.order);
    assert id in q.order;
    var rest := q.pending[id][1..];
    assert forall item | item in rest :: item in q.pending[id];
    var q' := Do(q, Rotate);
    if rest != [] {
      assert forall c :: c in q'.order <==> c == id || c in q.order[1..];
    }
  }

  lemma WellFormedStep(q: Queues, op: Op)
    requires WellFormed(q)
    ensures WellFormed(Do(q, op))
  {
    match op
    case Push(id, packet) =>
      assert id !in q.pending ==> id !in q.order;
    case Direct(id, packet) =>
    case Rotate =>
      if q.order != [] {
        RotateConsistent(q);
      }
    case Drop(id) =>
      WithoutKeepsDistinct(q.order, id);
  }

  lemma {:induction false} WellFormedAll(q: Queues, ops: seq<Op>)
    requires WellFormed(q)
    ensures WellFormed(DoAll(q, ops))
  {
    if ops != [] {
      WellFormedAll(q, ops[..|ops| - 1]);
      WellFormedStep(DoAll(q, ops[..|ops| - 1]), ops[|ops| - 1]);
    }
  }

  // ----- what each operation does -----

  /** The order without the client: the others keep their places. */
  lemma {:induction false} WithoutExactly(order: seq<ClientId>, id: ClientId, k: nat)
    requires Distinct(order) && k <= |order| && (if k < |order| then order[k] == id else id !in order)
    ensures Without(order, id) == if k < |order| then order[..k] + order[k + 1..] else order
  {
    if order != [] {
      assert order == [order[0]] + order[1..] && Distinct(order[1..]);
      if k == 0 {
        assert id !in order[1..];
        WithoutExactly(order[1..], id, |order[1..]|);
      } else {
        WithoutExactly(order[1..], id, k - 1);
      }
    }
  }

  ghost predicate SameLogs(q: Queues, q': Queues) {
    q'.produced == q.produced && q'.handed == q.handed && q'.flushed == q.flushed
  }

  /** A packet pushed gets the next serial number and goes to the end of its client's queue, and a
      client with no queue goes to the end of the order. */
  lemma PushExactly(q: Queues, id: ClientId, packet: Bytes, c: ClientId)
    requires WellFormed(q)
    ensures var q', item := Do(q, Push(id, packet)), [Item(id, |q.produced|, packet)];
            && q'.produced == q.produced + item && q'.handed == q.handed && q'.flushed == q.flushed
            && Queue(q', c) == Queue(q, c) + (if c == id then item else [])
            && q'.order == q.order + if id in q.order then [] else [id]
  {
    assert id in q.order <==> id in q.pending;
  }

  /** A packet sent directly gets the next serial number and is handed over past the queues. */
  lemma DirectExactly(q: Queues, id: ClientId, packet: Bytes)
    ensures var q', item := Do(q, Direct(id, packet)), [Item(id, |q.produced|, packet)];
            && q'.produced == q.produced + item && q'.handed == q.handed + item && q'.flushed == q.flushed
            && q'.pending == q.pending && q'.order == q.order
  {}

  /** A rotation hands over the head of the first client's queue, and the client goes to the end of
      the order if it has more; with nothing queued it does nothing. */
  lemma RotateExactly(q: Queues, c: ClientId)
    requires WellFormed(q)
    ensures var q' := Do(q, Rotate);
            if q.order == [] then q' == q
            else
              var id := q.order[0];
              var queue := Queue(q, id);
              && queue != [] && q'.produced == q.produced
              && q'.handed == q.handed + [queue[0]] && q'.flushed == q.flushed + [queue[0]]
              && Queue(q', c) == (if c == id then queue[1..] else Queue(q, c))
              && q'.order == q.order[1..] + if |queue| > 1 then [id] else []
  {
    if q.order != [] {
      RotateConsistent(q);
      RotateQueue(q, c);
    }
  }

  /** Dropping a client empties its queue and strikes it, at place k, from the order. */
  lemma DropExactly(q: Queues, id: ClientId, c: ClientId, k: nat)
    requires WellFormed(q) && k <= |q.order| && (if k < |q.order| then q.order[k] == id else id !in q.order)
    ensures var q' := Do(q, Drop(id));
            && SameLogs(q, q')
            && Queue(q', c) == (if c == id then [] else Queue(q, c))
            && q'.order == if k < |q.order| then q.order[..k] + q.order[k + 1..] else q.order
  {
    WithoutExactly(q.order, id, k);
  }

  // ----- conservation and order -----

  function Of(log: seq<Item>, id: ClientId): seq<Item> {
    if log == [] then []
    else
      var rest := Of(log[..|log| - 1], id);
      if log[|log| - 1].client == id then rest + [log[|log| - 1]] else rest
  }

  lemma OfAppend(log: seq<Item>, item: Item, id: ClientId)
    ensures Of(log + [item], id) == if item.client == id then Of(log, id) + [item] else Of(log, id)
  {
    assert (log + [item])[..|log|] == log;
  }

  /** What the client's packets look like at the far end once its queue has drained. */
  ghost function Line(q: Queues, id: ClientId): seq<Item> {
    Of(q.handed, id) + Queue(q, id)
  }

  lemma ProducedStep(q: Queues, op: Op, id: ClientId)
    ensures Of(Do(q, op).produced, id) ==
              if (op.Push? || op.Direct?) && op.client == id
              then Of(q.produced, id) + [Item(id, |q.produced|, op.packet)] else Of(q.produced, id)
  {
    if op.Push? || op.Direct? {
      OfAppend(q.produced, Item(op.client, |q.produced|, op.packet), id);
    }
  }

  lemma RotateQueue(q: Queues, id: ClientId)
    requires q.order != [] && Queue(q, q.order[0]) != []
    ensures var queue := Queue(q, q.order[0]);
            && Do(q, Rotate).handed == q.handed + [queue[0]]
            && Queue(Do(q, Rotate), id) == if id == q.order[0] then queue[1..] else Queue(q, id)
  {}

  lemma HeadQueue(q: Queues)
    requires WellFormed(q) && q.order != []
    ensures Queue(q, q.order[0]) != [] && Queue(q, q.order[0])[0].client == q.order[0]
  {
    RotateConsistent(q);
  }

  lemma RotateKeepsLine(q: Queues, id: ClientId)
    requires WellFormed(q) && q.order != []
    ensures Line(Do(q, Rotate), id) == Line(q, id)
  {
    HeadQueue(q);
    RotateQueue(q, id);
    MoveHead(q.handed, Queue(q, q.order[0]), id);
  }

  lemma MoveHead(handed: seq<Item>, queue: seq<Item>, id: ClientId)
    requires queue != []
    ensures Of(handed + [queue[0]], id) + queue[1..] ==
              Of(handed, id) + if queue[0].client == id then queue else queue[1..]
    ensures queue[0].client != id ==> Of(handed + [queue[0]], id) == Of(handed, id)
  {
    OfAppend(handed, queue[0], id);
    if queue[0].client == id {
      var before, head, rest := Of(handed, id), [queue[0]], queue[1..];
      assert queue == head + rest;
      assert before + head + rest == before + (head + rest);
    }
  }

  lemma LineStep(q: Queues, op: Op, id: ClientId)
    requires WellFormed(q) && op != Drop(id)
    ensures Line(Do(q, op), id) ==
              if op.Push? && op.client == id then Line(q, id) + [Item(id, |q.produced|, op.packet)]
              else if op.Direct? && op.client == id then
                Of(q.handed, id) + [Item(id, |q.produced|, op.packet)] + Queue(q, id)
              else Line(q, id)
  {
    match op
    case Push(c, packet) =>
    case Direct(c, packet) => OfAppend(q.handed, Item(c, |q.produced|, packet), id);
    case Rotate =>
      if q.order != [] {
        RotateKeepsLine(q, id);
      }
    case Drop(_) =>
  }

  /** Nothing is lost or duplicated: the packets handed over and those queued are
      together the packets produced, for every client that was not dropped. */
  lemma {:induction false} Conservation(ops: seq<Op>, id: ClientId)
    requires Drop(id) !in ops
    ensures var q := DoAll(EMPTY, ops);
            multiset(Of(q.handed, id)) + multiset(Queue(q, id)) == multiset(Of(q.produced, id))
  {
    if ops != [] {
      var n := |ops| - 1;
      var q, op := DoAll(EMPTY, ops[..n]), ops[n];
      Conservation(ops[..n], id);
      WellFormedAll(EMPTY, ops[..n]);
      LineStep(q, op, id);
      ProducedStep(q, op, id);
      var q' := Do(q, op);
      assert multiset(Line(q', id)) == multiset(Of(q'.handed, id)) + multiset(Queue(q', id));
      assert multiset(Line(q, id)) == multiset(Of(q.handed, id)) + multiset(Queue(q, id));
    }
  }

  ghost predicate InOrder(q: Queues, id: ClientId) {
    Line(q, id) == Of(q.produced, id)
  }

  /** The one operation that breaks production order: a packet sent past a queue. */
  predicate Overtakes(q: Queues, op: Op, id: ClientId) {
    op.Direct? && op.client == id && Queue(q, id) != []
  }

  /** None of the operations, each where it happens, overtakes the client's queue. */
  predicate NeverOvertaken(ops: seq<Op>, id: ClientId) {
    ops != [] ==>
      var n := |ops| - 1;
      NeverOvertaken(ops[..n], id) && !Overtakes(DoAll(EMPTY, ops[..n]), ops[n], id)
  }

  ghost predicate HasInversion(line: seq<Item>) {
    exists i, j :: 0 <= i < j < |line| && line[i].serial > line[j].serial
  }

  /** Two packets stand in the line in the opposite of production order. */
  ghost predicate Inverted(q: Queues, id: ClientId) {
    HasInversion(Line(q, id))
  }

  lemma InsertKeepsInversion(front: seq<Item>, item: Item, back: seq<Item>)
    requires HasInversion(front + back)
    ensures HasInversion(front + [item] + back)
  {
    var line, line', h := front + back, front + [item] + back, |front|;
    var i, j :| 0 <= i < j < |line| && line[i].serial > line[j].serial;
    var i', j' := if i < h then i else i + 1, if j < h then j else j + 1;
    assert line'[i'] == line[i] && line'[j'] == line[j];
  }

  ghost predicate Ascending(log: seq<Item>, bound: nat) {
    && (forall i | 0 <= i < |log| :: log[i].serial < bound)
    && (forall i, j | 0 <= i < j < |log| :: log[i].serial < log[j].serial)
  }

  lemma {:induction false} OfSerials(log: seq<Item>, id: ClientId)
    requires Numbered(log)
    ensures Ascending(Of(log, id), |log|)
  {
    if log != [] {
      var n := |log| - 1;
      assert Numbered(log[..n]) && log[n].serial == n;
      OfSerials(log[..n], id);
      assert Ascending(Of(log[..n], id) + [log[n]], |log|);
    }
  }

  lemma InOrderNotInverted(q: Queues, id: ClientId)
    requires WellFormed(q) && InOrder(q, id)
    ensures !Inverted(q, id)
    ensures Ascending(Line(q, id), |q.produced|)
  {
    OfSerials(q.produced, id);
  }

  lemma InversionStays(q: Queues, op: Op, id: ClientId)
    requires WellFormed(q) && Inverted(q, id) && op != Drop(id)
    ensures Inverted(Do(q, op), id)
  {
    LineStep(q, op, id);
    if (op.Push? || op.Direct?) && op.client == id {
      var item, line := Item(id, |q.produced|, op.packet), Line(q, id);
      if op.Push? {
        assert line + [] == line && line + [item] + [] == line + [item];
        InsertKeepsInversion(line, item, []);
      } else {
        InsertKeepsInversion(Of(q.handed, id), item, Queue(q, id));
      }
    }
  }

  lemma OvertakingInverts(q: Queues, op: Op, id: ClientId)
    requires WellFormed(q) && InOrder(q, id) && Overtakes(q, op, id)
    ensures Inverted(Do(q, op), id)
  {
    LineStep(q, op, id);
    InOrderNotInverted(q, id);
    NewestInFront(Of(q.handed, id), Item(id, |q.produced|, op.packet), Queue(q, id));
  }

  lemma NewestInFront(front: seq<Item>, item: Item, back: seq<Item>)
    requires Ascending(front + back, item.serial) && back != []
    ensures HasInversion(front + [item] + back)
  {
    var line, h := front + [item] + back, |front|;
    assert (front + back)[h] == back[0];
    assert line[h] == item && line[h + 1] == back[0];
  }

  lemma InOrderStep(q: Queues, op: Op, id: ClientId)
    requires WellFormed(q) && op != Drop(id) && InOrder(q, id) && !Overtakes(q, op, id)
    ensures InOrder(Do(q, op), id)
  {
    LineStep(q, op, id);
    ProducedStep(q, op, id);
    if op.Direct? && op.client == id {
      var item := Item(id, |q.produced|, op.packet);
      assert Of(q.handed, id) + [] == Of(q.handed, id);
      assert Of(q.handed, id) + [item] + [] == Of(q.handed, id) + [item];
    }
  }

  lemma InvertedOutOfOrder(q: Queues, id: ClientId)
    requires WellFormed(q) && Inverted(q, id)
    ensures !InOrder(q, id)
  {
    if InOrder(q, id) {
      InOrderNotInverted(q, id);
    }
  }

  lemma OrderStep(q: Queues, op: Op, id: ClientId)
    requires WellFormed(q) && op != Drop(id) && (InOrder(q, id) || Inverted(q, id))
    ensures var q' := Do(q, op);
            && (InOrder(q', id) || Inverted(q', id))
            && (InOrder(q', id) <==> InOrder(q, id) && !Overtakes(q, op, id))
  {
    WellFormedStep(q, op);
    if InOrder(q, id) && !Overtakes(q, op, id) {
      InOrderStep(q, op, id);
    } else {
      if InOrder(q, id) {
        OvertakingInverts(q, op, id);
      } else {
        InversionStays(q, op, id);
      }
      InvertedOutOfOrder(Do(q, op), id);
    }
  }

  /** After any operations, what was sent followed by what is queued is in production
      order exactly when no packet was ever sent directly past a non-empty queue. */
  lemma {:induction false} OrderExactly(ops: seq<Op>, id: ClientId)
    requires Drop(id) !in ops
    ensures var q := DoAll(EMPTY, ops);
            && (InOrder(q, id) <==> NeverOvertaken(ops, id))
            && (InOrder(q, id) || Inverted(q, id))
  {
    if ops != [] {
      var n := |ops| - 1;
      OrderExactly(ops[..n], id);
      WellFormedAll(EMPTY, ops[..n]);
      OrderStep(DoAll(EMPTY, ops[..n]), ops[n], id);
    }
  }

  // ----- round-robin fairness -----

  lemma {:induction false} FlushedGrows(q: Queues, ops: seq<Op>)
    ensures q.flushed <= DoAll(q, ops).flushed
  {
    if ops != [] {
      FlushedGrows(q, ops[..|ops| - 1]);
    }
  }

  /** The packets that leave the queues during ops. */
  ghost function Sent(q: Queues, ops: seq<Op>): seq<Item> {
    FlushedGrows(q, ops);
    DoAll(q, ops).flushed[|q.flushed|..]
  }

  function Directs(ops: seq<Op>): nat {
    if ops == [] then 0
    else Directs(ops[..|ops| - 1]) + if ops[|ops| - 1].Direct? then 1 else 0
  }

  /** Of the packets handed to Steam, those that did not leave a queue were sent directly. */
  lemma {:induction false} HandedAreSentOrDirect(q: Queues, ops: seq<Op>)
    ensures |DoAll(q, ops).handed| == |q.handed| + |Sent(q, ops)| + Directs(ops)
  {
    FlushedGrows(q, ops);
    if ops != [] {
      HandedAreSentOrDirect(q, ops[..|ops| - 1]);
      FlushedGrows(q, ops[..|ops| - 1]);
    }
  }

  lemma FlushedByOne(q: Queues, op: Op)
    requires WellFormed(q)
    ensures op.Rotate? && q.order != [] ==> Queue(q, q.order[0]) != []
    ensures Do(q, op).flushed ==
              q.flushed + if op.Rotate? && q.order != [] then [Queue(q, q.order[0])[0]] else []
  {
    if op.Rotate? && q.order != [] {
      HeadQueue(q);
    } else {
      assert q.flushed + [] == q.flushed;
    }
  }

  lemma AfterPrefix(log: seq<Item>, a: seq<Item>, b: seq<Item>)
    requires a + b <= log
    ensures log[|a|..] == b + log[|a + b|..]
  {}

  lemma SentFront(q: Queues, ops: seq<Op>)
    requires WellFormed(q) && ops != []
    ensures ops[0].Rotate? && q.order != [] ==> Queue(q, q.order[0]) != []
    ensures Sent(q, ops) ==
              (if ops[0].Rotate? && q.order != [] then [Queue(q, q.order[0])[0]] else [])
              + Sent(Do(q, ops[0]), ops[1..])
  {
    DoAllFront(q, ops);
    FlushedByOne(q, ops[0]);
    FlushedGrows(Do(q, ops[0]), ops[1..]);
    AfterPrefix(DoAll(q, ops).flushed, q.flushed,
                if ops[0].Rotate? && q.order != [] then [Queue(q, q.order[0])[0]] else []);
  }

  lemma {:induction false} WithoutMovesUp(order: seq<ClientId>, id: ClientId, k: nat) returns (k': nat)
    requires k < |order| && order[k] != id
    ensures k' <= k && k' < |Without(order, id)| && Without(order, id)[k'] == order[k]
  {
    if k == 0 {
      k' := 0;
    } else {
      k' := WithoutMovesUp(order[1..], id, k - 1);
      if order[0] != id {
        k' := k' + 1;
      }
    }
  }

  /** The first packet of item's client in the log is item itself, at index i. */
  ghost predicate FirstServed(log: seq<Item>, item: Item, i: nat) {
    i < |log| && log[i] == item && forall j | 0 <= j < i :: log[j].client != item.client
  }

  lemma FirstServedLater(other: Item, log: seq<Item>, item: Item, i: nat)
    requires FirstServed(log, item, i) && other.client != item.client
    ensures FirstServed([other] + log, item, i + 1)
  {}

  /** Whatever else is produced, sent, or dropped meanwhile, the client at position k has its head
      packet leave the queue after at most k packets of other clients have left theirs. Packets
      sent directly meanwhile are not among these. */
  lemma {:induction false} ServedWithinPosition(q: Queues, ops: seq<Op>, k: nat) returns (i: nat)
    requires WellFormed(q) && k < |q.order| && Drop(q.order[k]) !in ops
    requires |Sent(q, ops)| > k
    ensures Queue(q, q.order[k]) != [] && Queue(q, q.order[k])[0].client == q.order[k]
    ensures i <= k && FirstServed(Sent(q, ops), Queue(q, q.order[k])[0], i)
    decreases |ops|
  {
    SentFront(q, ops);
    HeadOf(q, k);
    WellFormedStep(q, ops[0]);
    var head := Queue(q, q.order[k])[0];
    if ops[0].Rotate? {
      HeadOf(q, 0);
      if k == 0 {
        i := 0;
      } else {
        RotateMovesUp(q, k);
        i := ServedWithinPosition(Do(q, Rotate), ops[1..], k - 1);
        FirstServedLater(Queue(q, q.order[0])[0], Sent(Do(q, Rotate), ops[1..]), head, i);
        i := i + 1;
      }
    } else {
      var k' := OthersKeepPosition(q, ops[0], k);
      assert Sent(q, ops) == Sent(Do(q, ops[0]), ops[1..]);
      i := ServedWithinPosition(Do(q, ops[0]), ops[1..], k');
    }
  }

  lemma HeadOf(q: Queues, k: nat)
    requires WellFormed(q) && k < |q.order|
    ensures Queue(q, q.order[k]) != [] && Queue(q, q.order[k])[0].client == q.order[k]
  {
    assert q.order[k] in q.order;
  }

  lemma RotateMovesUp(q: Queues, k: nat)
    requires WellFormed(q) && 0 < k < |q.order|
    ensures var q' := Do(q, Rotate);
            k - 1 < |q'.order| && q'.order[k - 1] == q.order[k] && q.order[0] != q.order[k]
            && Queue(q', q.order[k]) == Queue(q, q.order[k])
  {
    RotateConsistent(q);
  }

  lemma OthersKeepPosition(q: Queues, op: Op, k: nat) returns (k': nat)
    requires WellFormed(q) && k < |q.order| && !op.Rotate? && op != Drop(q.order[k])
    ensures var q' := Do(q, op);
            && k' <= k && k' < |q'.order| && q'.order[k'] == q.order[k]
            && Queue(q, q.order[k]) != [] && Queue(q', q.order[k]) != []
            && Queue(q', q.order[k])[0] == Queue(q, q.order[k])[0]
  {
    assert q.order[k] in q.order;
    k' := k;
    if op.Drop? {
      k' := WithoutMovesUp(q.order, op.client, k);
    }
  }

  function CountOf(log: seq<Item>, id: ClientId): nat {
    if log == [] then 0 else (if log[0].client == id then 1 else 0) + CountOf(log[1..], id)
  }

  ghost predicate Before(order: seq<ClientId>, a: ClientId, b: ClientId) {
    exists i, j :: 0 <= i < j < |order| && order[i] == a && order[j] == b
  }

  /** Both clients have packets queued before, between and after the operations. */
  ghost predicate StayBacklogged(q: Queues, ops: seq<Op>, a: ClientId, b: ClientId) {
    forall k | 0 <= k <= |ops| :: Queue(DoAll(q, ops[..k]), a) != [] && Queue(DoAll(q, ops[..k]), b) != []
  }

  lemma StayBackloggedRest(q: Queues, ops: seq<Op>, a: ClientId, b: ClientId)
    requires StayBacklogged(q, ops, a, b)
    ensures Queue(q, a) != [] && Queue(q, b) != []
    ensures ops != [] ==> StayBacklogged(Do(q, ops[0]), ops[1..], a, b)
  {
    assert ops[..0] == [];
    if ops != [] {
      forall k | 0 <= k <= |ops[1..]|
        ensures var r := DoAll(Do(q, ops[0]), ops[1..][..k]); Queue(r, a) != [] && Queue(r, b) != []
      {
        DoAllFront(q, ops[..k + 1]);
        assert ops[..k + 1][1..] == ops[1..][..k];
      }
    }
  }

  lemma {:induction false} WithoutKeepsBefore(order: seq<ClientId>, id: ClientId, a: ClientId, b: ClientId, i: nat, j: nat)
    requires i < j < |order| && order[i] == a && order[j] == b && a != id && b != id
    ensures Before(Without(order, id), a, b)
  {
    if i == 0 {
      var j' := WithoutMovesUp(order[1..], id, j - 1);
      assert Without(order, id)[0] == a && Without(order, id)[j' + 1] == b;
    } else {
      WithoutKeepsBefore(order[1..], id, a, b, i - 1, j - 1);
      var r := Without(order[1..], id);
      var i', j' :| 0 <= i' < j' < |r| && r[i'] == a && r[j'] == b;
      if order[0] != id {
        assert Without(order, id)[i' + 1] == a && Without(order, id)[j' + 1] == b;
      } else {
        assert Without(order, id)[i'] == a && Without(order, id)[j'] == b;
      }
    }
  }

  /** One operation keeps a before b, unless it serves a, which then comes after b. */
  lemma TurnTaking(q: Queues, op: Op, a: ClientId, b: ClientId)
    requires WellFormed(q) && Before(q.order, a, b)
    requires Queue(Do(q, op), a) != [] && Queue(Do(q, op), b) != []
    ensures var order' := Do(q, op).order;
            if op.Rotate? && q.order[0] == a then Before(order', b, a)
            else Before(order', a, b) && (op.Rotate? ==> q.order[0] != b)
  {
    var order' := Do(q, op).order;
    var i, j :| 0 <= i < j < |q.order| && q.order[i] == a && q.order[j] == b;
    match op
    case Push(_, _) => assert order'[i] == a && order'[j] == b;
    case Direct(_, _) =>
    case Rotate =>
      assert q.order[0] in q.pending && q.pending[q.order[0]] != [];
      if i == 0 {
        assert order'[j - 1] == b && order'[|order'| - 1] == a;
      } else {
        assert order'[i - 1] == a && order'[j - 1] == b;
      }
    case Drop(id) => WithoutKeepsBefore(q.order, id, a, b, i, j);
  }

  /** Two clients that stay backlogged are served alternately: of the one ahead as many packets
      leave the queue as of the other, or one more. */
  lemma {:induction false} BackloggedClientsAlternate(q: Queues, ops: seq<Op>, a: ClientId, b: ClientId)
    requires WellFormed(q) && a != b && Before(q.order, a, b) && StayBacklogged(q, ops, a, b)
    ensures 0 <= CountOf(Sent(q, ops), a) - CountOf(Sent(q, ops), b) <= 1
    decreases |ops|
  {
    if ops != [] {
      var q' := Do(q, ops[0]);
      StayBackloggedRest(q, ops, a, b);
      StayBackloggedRest(q', ops[1..], a, b);
      WellFormedStep(q, ops[0]);
      TurnTaking(q, ops[0], a, b);
      CountOfSent(q, ops, a);
      CountOfSent(q, ops, b);
      if ops[0].Rotate? && q.order[0] == a {
        BackloggedClientsAlternate(q', ops[1..], b, a);
      } else {
        BackloggedClientsAlternate(q', ops[1..], a, b);
      }
    } else {
      assert Sent(q, ops) == [];
    }
  }

  lemma CountOfSent(q: Queues, ops: seq<Op>, id: ClientId)
    requires WellFormed(q) && ops != []
    ensures CountOf(Sent(q, ops), id) ==
              (if ops[0].Rotate? && q.order != [] && q.order[0] == id then 1 else 0)
              + CountOf(Sent(Do(q, ops[0]), ops[1..]), id)
  {
    SentFront(q, ops);
    var rest := Sent(Do(q, ops[0]), ops[1..]);
    if ops[0].Rotate? && q.order != [] {
      RotateConsistent(q);
      assert ([Queue(q, q.order[0])[0]] + rest)[1..] == rest;
    } else {
      assert [] + rest == rest;
    }
  }
}
