/** The sender's operations grouped by the call they belong to, and what production order
    comes down to in terms of calls. */
module TunnelCalls {
  import opened Framing
  import opened SendQueue

  /** One call of sendTunnelPacket: its frames, of which the first `direct` went straight out
      and the others into the queue, and whether it found the link saturated when it began; a
      flush with that many packets sent; a client removed. */
  datatype Call =
    | Tunnel(id: ClientId, frames: seq<Bytes>, direct: nat, saturated: bool)
    | Flush(sends: nat)
    | Remove(id: ClientId)

  function Rotations(n: nat): seq<Op> {
    seq(n, _ => Rotate)
  }

  /** The first `direct` frames go straight out, the others into the queue. */
  function SendOps(id: ClientId, frames: seq<Bytes>, direct: nat): seq<Op> {
    seq(|frames|, k requires 0 <= k < |frames| =>
      if k < direct then Direct(id, frames[k]) else Push(id, frames[k]))
  }

  function Ops(call: Call): seq<Op> {
    match call
    case Tunnel(id, frames, direct, _) => SendOps(id, frames, direct)
    case Flush(sends) => Rotations(sends)
    case Remove(id) => [Drop(id)]
  }

  function OpsOf(calls: seq<Call>): seq<Op> {
    if calls == [] then [] else OpsOf(calls[..|calls| - 1]) + Ops(calls[|calls| - 1])
  }

  /** The queues after a history of calls. */
  function After(calls: seq<Call>): Queues {
    DoAll(EMPTY, OpsOf(calls))
  }

  /** The packets of a call, numbered from `first` on. */
  function Numbering(id: ClientId, frames: seq<Bytes>, first: nat): seq<Item> {
    seq(|frames|, k requires 0 <= k < |frames| => Item(id, first + k, frames[k]))
  }

  /** The items are produced in order; those sent are handed over, and those queued join the end of
      the client's queue. */
  ghost predicate Adds(q: Queues, q': Queues, items: seq<Item>, sent: seq<Item>, queued: seq<Item>, id: ClientId, c: ClientId) {
    && q'.produced == q.produced + items && q'.handed == q.handed + sent && q'.flushed == q.flushed
    && Queue(q', c) == Queue(q, c) + if c == id then queued else []
  }

  lemma FrameAdds(q: Queues, op: Op, id: ClientId, frame: Bytes, c: ClientId)
    requires op == Direct(id, frame) || op == Push(id, frame)
    ensures var item := [Item(id, |q.produced|, frame)];
            Adds(q, Do(q, op), item, if op.Direct? then item else [], if op.Direct? then [] else item, id, c)
  {}

  lemma AddsChain(q: Queues, mid: Queues, q': Queues, items: seq<Item>, sent: seq<Item>, queued: seq<Item>,
                  items': seq<Item>, sent': seq<Item>, queued': seq<Item>, id: ClientId, c: ClientId)
    requires Adds(q, mid, items, sent, queued, id, c) && Adds(mid, q', items', sent', queued', id, c)
    ensures Adds(q, q', items + items', sent + sent', queued + queued', id, c)
  {
    assert q.produced + items + items' == q.produced + (items + items');
    assert q.handed + sent + sent' == q.handed + (sent + sent');
    assert c == id ==> Queue(q, c) + queued + queued' == Queue(q, c) + (queued + queued');
  }

  lemma NothingAdded(q: Queues, id: ClientId, c: ClientId)
    ensures Adds(q, q, [], [], [], id, c)
  {}

  /** How many of the first k frames are sent. */
  function SentOf(direct: nat, k: nat): nat {
    if k <= direct then k else direct
  }

  lemma AddsFrame(q: Queues, mid: Queues, next: Queues, items: seq<Item>, direct: nat, k: nat, op: Op,
                  id: ClientId, frame: Bytes, c: ClientId)
    requires k < |items| && items[k] == Item(id, |q.produced| + k, frame)
    requires op == (if k < direct then Direct(id, frame) else Push(id, frame)) && next == Do(mid, op)
    requires Adds(q, mid, items[..k], items[..SentOf(direct, k)], items[SentOf(direct, k)..k], id, c)
    ensures var d := SentOf(direct, k + 1); Adds(q, next, items[..k + 1], items[..d], items[d..k + 1], id, c)
  {
    var item, d := [items[k]], SentOf(direct, k);
    FrameAdds(mid, op, id, frame, c);
    AddsChain(q, mid, next, items[..k], items[..d], items[d..k], item, if k < direct then item else [],
              if k < direct then [] else item, id, c);
    assert items[..k + 1] == items[..k] + item;
    assert k >= direct ==> items[d..k + 1] == items[d..k] + item;
    assert k < direct ==> items[k..k] == [] == items[k + 1..k + 1];
  }

  /** `after` says how the queues stand after each operation. */
  ghost predicate Leads(q: Queues, after: nat -> Queues, ops: seq<Op>, q': Queues) {
    && after(0) == q && after(|ops|) == q'
    && forall j: nat | j < |ops| :: after(j + 1) == Do(after(j), ops[j])
  }

  /** The operations and the packets of a call. */
  ghost predicate Carry(ops: seq<Op>, items: seq<Item>, first: nat, direct: nat, id: ClientId, frames: seq<Bytes>) {
    && |ops| == |items| == |frames|
    && (forall j: nat | j < |ops| :: ops[j] == if j < direct then Direct(id, frames[j]) else Push(id, frames[j]))
    && (forall j: nat | j < |items| :: items[j] == Item(id, first + j, frames[j]))
  }

  lemma {:induction false} AddsAlong(q: Queues, q': Queues, after: nat -> Queues, ops: seq<Op>, items: seq<Item>, direct: nat,
                                     k: nat, id: ClientId, frames: seq<Bytes>, c: ClientId)
    requires Leads(q, after, ops, q') && Carry(ops, items, |q.produced|, direct, id, frames) && k <= |items|
    ensures var d := SentOf(direct, k); Adds(q, after(k), items[..k], items[..d], items[d..k], id, c)
  {
    if k == 0 {
      NothingAdded(q, id, c);
    } else {
      AddsAlong(q, q', after, ops, items, direct, k - 1, id, frames, c);
      assert after(k - 1 + 1) == Do(after(k - 1), ops[k - 1]);
      AddsFrame(q, after(k - 1), after(k), items, direct, k - 1, ops[k - 1], id, frames[k - 1], c);
    }
  }

  lemma AddsAll(q: Queues, q': Queues, after: nat -> Queues, ops: seq<Op>, items: seq<Item>, direct: nat,
                id: ClientId, frames: seq<Bytes>, c: ClientId)
    requires Leads(q, after, ops, q') && Carry(ops, items, |q.produced|, direct, id, frames) && direct <= |frames|
    ensures Adds(q, q', items, items[..direct], items[direct..], id, c)
  {
    AddsAlong(q, q', after, ops, items, direct, |items|, id, frames, c);
    assert items[..|items|] == items && items[direct..|items|] == items[direct..];
  }

  function AfterFirst(q: Queues, ops: seq<Op>): nat -> Queues {
    (k: nat) => if k <= |ops| then DoAll(q, ops[..k]) else q
  }

  lemma AfterFirstLeads(q: Queues, ops: seq<Op>)
    ensures Leads(q, AfterFirst(q, ops), ops, DoAll(q, ops))
  {
    assert ops[..0] == [] && ops[..|ops|] == ops;
    forall j: nat | j < |ops| ensures AfterFirst(q, ops)(j + 1) == Do(AfterFirst(q, ops)(j), ops[j]) {
      assert ops[..j + 1][..j] == ops[..j];
    }
  }

  /** A call adds its frames, numbered from the number of packets produced before it: the first
      `direct` are sent, and the others queued. */
  lemma TunnelExactly(q: Queues, id: ClientId, frames: seq<Bytes>, direct: nat, c: ClientId)
    requires direct <= |frames|
    ensures var items := Numbering(id, frames, |q.produced|);
            Adds(q, DoAll(q, SendOps(id, frames, direct)), items, items[..direct], items[direct..], id, c)
  {
    var ops, items := SendOps(id, frames, direct), Numbering(id, frames, |q.produced|);
    AfterFirstLeads(q, ops);
    assert Carry(ops, items, |q.produced|, direct, id, frames);
    AddsAll(q, DoAll(q, ops), AfterFirst(q, ops), ops, items, direct, id, frames, c);
  }

  /** q is where the calls lead. The trigger keeps the history from being unfolded wherever the
      queues are only passed on. */
  ghost predicate Logged(calls: seq<Call>, q: Queues) {
    forall c: seq<Call> {:trigger After(c)} | c == calls :: After(c) == q
  }

  lemma LoggedIsAfter(calls: seq<Call>, q: Queues)
    ensures Logged(calls, q) <==> q == After(calls)
  {}

  lemma LogOneMore(calls: seq<Call>, q: Queues, call: Call)
    requires Logged(calls, q)
    ensures Logged(calls + [call], DoAll(q, Ops(call)))
  {
    LoggedIsAfter(calls, q);
    AfterOneMore(calls, call);
  }

  lemma AfterOneMore(calls: seq<Call>, call: Call)
    ensures After(calls + [call]) == DoAll(After(calls), Ops(call))
  {
    assert (calls + [call])[..|calls|] == calls;
    DoAllAppend(EMPTY, OpsOf(calls), Ops(call));
  }

  /** The call sends a packet directly although the client already has packets queued. */
  predicate JumpsQueue(before: Queues, call: Call, id: ClientId) {
    call.Tunnel? && call.id == id && call.direct > 0 && call.frames != [] && Queue(before, id) != []
  }

  predicate NeverJumps(calls: seq<Call>, id: ClientId) {
    calls != [] ==>
      var n := |calls| - 1;
      NeverJumps(calls[..n], id) && !JumpsQueue(After(calls[..n]), calls[n], id)
  }

  lemma NeverOvertakenSnoc(ops: seq<Op>, op: Op, id: ClientId)
    ensures NeverOvertaken(ops + [op], id) <==> NeverOvertaken(ops, id) && !Overtakes(DoAll(EMPTY, ops), op, id)
  {
    assert (ops + [op])[..|ops|] == ops;
  }

  lemma {:induction false} NeverOvertakenOthers(ops: seq<Op>, more: seq<Op>, id: ClientId)
    requires forall op | op in more :: !op.Direct? || op.client != id
    ensures NeverOvertaken(ops + more, id) <==> NeverOvertaken(ops, id)
  {
    if more == [] {
      assert ops + more == ops;
    } else {
      var n := |more| - 1;
      assert forall op | op in more[..n] :: op in more;
      NeverOvertakenOthers(ops, more[..n], id);
      assert more[n] in more;
      assert ops + more == (ops + more[..n]) + [more[n]];
      NeverOvertakenSnoc(ops + more[..n], more[n], id);
    }
  }

  /** Sending directly neither fills nor empties a queue. */
  lemma {:induction false} NeverOvertakenDirect(ops: seq<Op>, frames: seq<Bytes>, id: ClientId)
    ensures var all := ops + SendOps(id, frames, |frames|);
            && Queue(DoAll(EMPTY, all), id) == Queue(DoAll(EMPTY, ops), id)
            && (NeverOvertaken(all, id) <==>
                NeverOvertaken(ops, id) && (frames == [] || Queue(DoAll(EMPTY, ops), id) == []))
  {
    if frames == [] {
      assert ops + SendOps(id, frames, 0) == ops;
    } else {
      var n := |frames| - 1;
      var before := ops + SendOps(id, frames[..n], n);
      var op := Direct(id, frames[n]);
      NeverOvertakenDirect(ops, frames[..n], id);
      assert ops + SendOps(id, frames, n + 1) == before + [op];
      NeverOvertakenSnoc(before, op, id);
      assert (before + [op])[..|before|] == before;
    }
  }

  lemma CallOvertakesExactly(ops: seq<Op>, call: Call, id: ClientId)
    ensures NeverOvertaken(ops + Ops(call), id) <==>
            NeverOvertaken(ops, id) && !JumpsQueue(DoAll(EMPTY, ops), call, id)
  {
    if call.Tunnel? && call.id == id {
      var frames, d := call.frames, if call.direct < |call.frames| then call.direct else |call.frames|;
      var sent, queued := SendOps(id, frames[..d], d), SendOps(id, frames[d..], 0);
      assert Ops(call) == sent + queued;
      assert ops + Ops(call) == (ops + sent) + queued;
      NeverOvertakenOthers(ops + sent, queued, id);
      NeverOvertakenDirect(ops, frames[..d], id);
    } else {
      NeverOvertakenOthers(ops, Ops(call), id);
    }
  }

  lemma {:induction false} NeverJumpsExactly(calls: seq<Call>, id: ClientId)
    ensures NeverOvertaken(OpsOf(calls), id) <==> NeverJumps(calls, id)
  {
    if calls != [] {
      var n := |calls| - 1;
      NeverJumpsExactly(calls[..n], id);
      CallOvertakesExactly(OpsOf(calls[..n]), calls[n], id);
    }
  }

  lemma DropOnlyByRemoval(call: Call, id: ClientId)
    ensures Drop(id) in Ops(call) <==> call == Remove(id)
  {}

  lemma {:induction false} RemovalsAreDrops(calls: seq<Call>, id: ClientId)
    ensures Drop(id) in OpsOf(calls) <==> Remove(id) in calls
  {
    if calls != [] {
      var n := |calls| - 1;
      RemovalsAreDrops(calls[..n], id);
      assert calls == calls[..n] + [calls[n]];
      DropOnlyByRemoval(calls[n], id);
    }
  }

  /** For a client that was never removed, what was sent followed by what is queued is in
      production order exactly when no call that began with packets queued for the client sent
      one directly; and sent plus queued is always what was produced. */
  lemma OrderByCalls(calls: seq<Call>, id: ClientId)
    requires Remove(id) !in calls
    ensures InOrder(After(calls), id) <==> NeverJumps(calls, id)
    ensures multiset(Of(After(calls).handed, id)) + multiset(Queue(After(calls), id)) ==
              multiset(Of(After(calls).produced, id))
  {
    RemovalsAreDrops(calls, id);
    OrderExactly(OpsOf(calls), id);
    NeverJumpsExactly(calls, id);
    Conservation(OpsOf(calls), id);
  }

  /** A call that finds the link saturated sends nothing directly. */
  predicate SaturationHeeded(calls: seq<Call>) {
    forall call | call in calls && call.Tunnel? && call.saturated :: call.direct == 0
  }

  /** Every call for the client that begins with packets queued for it finds the link
      saturated. */
  predicate BacklogMeansSaturated(calls: seq<Call>, id: ClientId) {
    calls != [] ==>
      var n := |calls| - 1;
      && BacklogMeansSaturated(calls[..n], id)
      && (calls[n].Tunnel? && calls[n].id == id && Queue(After(calls[..n]), id) != [] ==> calls[n].saturated)
  }

  lemma {:induction false} SaturatedNeverJumps(calls: seq<Call>, id: ClientId)
    requires SaturationHeeded(calls) && BacklogMeansSaturated(calls, id)
    ensures NeverJumps(calls, id)
  {
    if calls != [] {
      var n := |calls| - 1;
      assert calls[n] in calls && forall call | call in calls[..n] :: call in calls;
      SaturatedNeverJumps(calls[..n], id);
    }
  }

  /** If the link is saturated whenever a call begins with packets queued for its client, the
      client's packets stay in production order. */
  lemma SaturatedCallsKeepOrder(calls: seq<Call>, id: ClientId)
    requires Remove(id) !in calls && SaturationHeeded(calls) && BacklogMeansSaturated(calls, id)
    ensures InOrder(After(calls), id)
  {
    SaturatedNeverJumps(calls, id);
    OrderByCalls(calls, id);
  }

  lemma QueuedByFirst(id: ClientId, frame: Bytes)
    ensures Queue(After([Tunnel(id, [frame], 0, true)]), id) != []
  {
    var call := Tunnel(id, [frame], 0, true);
    assert [call][..0] == [];
    AfterOneMore([], call);
    assert [] + [call] == [call];
    assert Ops(call) == [Push(id, frame)] && [Push(id, frame)][..0] == [];
  }

  lemma DirectAfterQueued(id: ClientId, x: Bytes, y: Bytes)
    ensures !InOrder(After([Tunnel(id, [x], 0, true), Tunnel(id, [y], 1, false)]), id)
  {
    var calls := [Tunnel(id, [x], 0, true), Tunnel(id, [y], 1, false)];
    assert calls[..1] == [calls[0]];
    QueuedByFirst(id, x);
    assert JumpsQueue(After(calls[..1]), calls[1], id);
    assert !NeverJumps(calls, id);
    OrderByCalls(calls, id);
  }

  /** Without that the order does break: one data packet is queued, and the next call for the
      same client finds the link free and sends its packet directly. */
  lemma FastPathReorders(id: ClientId, x: Bytes, y: Bytes)
    ensures var first := Tunnel(id, [BuildPacket(id, x, DATA)], 0, true);
            var second := Tunnel(id, [BuildPacket(id, y, DATA)], 1, false);
            SaturationHeeded([first, second]) && !InOrder(After([first, second]), id)
  {
    DirectAfterQueued(id, BuildPacket(id, x, DATA), BuildPacket(id, y, DATA));
  }
}
