/** The multiplexed sender. Steam is an oracle: every status poll, send result and
    clock reading is arbitrary. A callback (timer, read completion, incoming packet,
    client added or removed) runs to its end before the next one. */
module Multiplexing {
  import opened Framing
  import opened SendQueue
  import opened TunnelCalls

  const HIGH_WATER_BYTES: int := 524_288
  const LOW_WATER_BYTES: int := 262_144

  datatype SendResult = Ok | LimitExceeded | OtherFailure

  /** A host's attempt to open a local connection; after a failure it does not try again for
      a second. */
  datatype Attempt = Connects | Fails | FailedJustNow

  function Min(a: int, b: int): int {
    if a < b then a else b
  }

  /** The packets still queued, counted along the order. */
  ghost function Backlog(order: seq<ClientId>, pending: map<ClientId, seq<Item>>): nat {
    if order == [] then 0
    else (if order[0] in pending then |pending[order[0]]| else 0) + Backlog(order[1..], pending)
  }

  lemma {:induction false} BacklogIgnores(order: seq<ClientId>, pending: map<ClientId, seq<Item>>,
                                         pending': map<ClientId, seq<Item>>)
    requires forall id | id in order :: (id in pending <==> id in pending') && (id in pending ==> pending[id] == pending'[id])
    ensures Backlog(order, pending) == Backlog(order, pending')
  {
    if order != [] {
      assert order[0] in order;
      BacklogIgnores(order[1..], pending, pending');
    }
  }

  lemma {:induction false} BacklogAppend(order: seq<ClientId>, id: ClientId, pending: map<ClientId, seq<Item>>)
    ensures Backlog(order + [id], pending) ==
              Backlog(order, pending) + if id in pending then |pending[id]| else 0
  {
    if order == [] {
      assert order + [id] == [id];
    } else {
      assert (order + [id])[1..] == order[1..] + [id];
      BacklogAppend(order[1..], id, pending);
    }
  }

  lemma RotateShrinks(q: Queues)
    requires WellFormed(q) && q.order != []
    ensures Backlog(Do(q, Rotate).order, Do(q, Rotate).pending) + 1 == Backlog(q.order, q.pending)
  {
    RotateConsistent(q);
    DistinctFront(q.order);
    var q', id := Do(q, Rotate), q.order[0];
    BacklogIgnores(q.order[1..], q.pending, q'.pending);
    if q.pending[id][1..] != [] {
      BacklogAppend(q.order[1..], id, q'.pending);
    }
  }

  function PacketsOf(items: seq<Item>): seq<Bytes> {
    seq(|items|, k requires 0 <= k < |items| => items[k].packet)
  }

  /** The queues as the sender stores them: just the packets. */
  function Plain(pending: map<ClientId, seq<Item>>): map<ClientId, seq<Bytes>> {
    map id | id in pending :: PacketsOf(pending[id])
  }

  /** Well-formed queues without empty packets. */
  ghost predicate Sound(q: Queues) {
    WellFormed(q) && forall id, item | id in q.pending && item in q.pending[id] :: item.packet != []
  }

  lemma SoundStep(q: Queues, op: Op)
    requires Sound(q) && (op.Push? ==> op.packet != [])
    ensures Sound(Do(q, op))
  {
    WellFormedStep(q, op);
    var q' := Do(q, op);
    forall id, item | id in q'.pending && item in q'.pending[id] ensures item.packet != [] {
      if item !in Queue(q, id) {
        assert op.Push?;
      }
    }
  }

  /** The sender's three containers store the queues q. */
  ghost predicate Mirrors(pending: map<ClientId, seq<Bytes>>, order: seq<ClientId>, orderSet: set<ClientId>, q: Queues) {
    Sound(q) && order == q.order && pending == Plain(q.pending) && orderSet == pending.Keys
  }

  lemma KeysAfterUpdate<T>(m: map<ClientId, T>, id: ClientId, value: T)
    ensures m[id := value].Keys == m.Keys + {id}
  {}

  lemma KeysAfterRemoval<T>(m: map<ClientId, T>, id: ClientId)
    ensures (m - {id}).Keys == m.Keys - {id}
  {}

  lemma PlainPush(q: Queues, id: ClientId, packet: Bytes)
    ensures var plain := Plain(q.pending);
            Plain(Do(q, Push(id, packet)).pending) ==
              plain[id := (if id in plain then plain[id] else []) + [packet]]
  {
    var item := Item(id, |q.produced|, packet);
    assert PacketsOf(Queue(q, id) + [item]) == PacketsOf(Queue(q, id)) + [packet];
  }

  lemma OrderPush(q: Queues, id: ClientId, packet: Bytes)
    requires WellFormed(q)
    ensures Do(q, Push(id, packet)).order == if id in q.pending then q.order else q.order + [id]
  {}

  lemma MirrorsPush(pending: map<ClientId, seq<Bytes>>, order: seq<ClientId>, orderSet: set<ClientId>, q: Queues,
                    id: ClientId, packet: Bytes)
    requires Mirrors(pending, order, orderSet, q) && packet != []
    ensures id in orderSet <==> id in pending
    ensures id in pending ==> pending[id] != []
    ensures Do(q, Push(id, packet)).handed == q.handed
    ensures var queue := if id in pending then pending[id] else [];
            Mirrors(pending[id := queue + [packet]], if id in orderSet then order else order + [id],
                    orderSet + {id}, Do(q, Push(id, packet)))
  {
    SoundStep(q, Push(id, packet));
    PlainPush(q, id, packet);
    OrderPush(q, id, packet);
    KeysAfterUpdate(pending, id, (if id in pending then pending[id] else []) + [packet]);
  }

  /** The head queue, and what a rotation does to the table. */
  lemma RotateTable(q: Queues)
    requires Sound(q) && q.order != []
    ensures var id := q.order[0];
            && id in q.pending && q.pending[id] != [] && q.pending[id][0].packet != []
            && Do(q, Rotate).pending ==
                 (if |q.pending[id]| == 1 then q.pending - {id} else q.pending[id := q.pending[id][1..]])
  {
    RotateConsistent(q);
    var queue := Queue(q, q.order[0]);
    assert queue[0] in queue;
  }

  lemma PacketsOfTail(items: seq<Item>)
    requires items != []
    ensures PacketsOf(items) != [] && PacketsOf(items)[0] == items[0].packet
    ensures PacketsOf(items)[1..] == PacketsOf(items[1..])
    ensures PacketsOf(items)[1..] == [] <==> |items| == 1
  {}

  lemma PlainUpdate(pending: map<ClientId, seq<Item>>, id: ClientId, items: seq<Item>)
    ensures Plain(pending[id := items]) == Plain(pending)[id := PacketsOf(items)]
    ensures Plain(pending - {id}) == Plain(pending) - {id}
  {}

  lemma PlainRotate(q: Queues)
    requires Sound(q) && q.order != []
    ensures var plain, id := Plain(q.pending), q.order[0];
            && id in plain && plain[id] != [] && plain[id][0] != []
            && Plain(Do(q, Rotate).pending) ==
                 (if plain[id][1..] == [] then plain - {id} else plain[id := plain[id][1..]])
  {
    RotateTable(q);
    var id := q.order[0];
    var items := q.pending[id];
    PacketsOfTail(items);
    PlainUpdate(q.pending, id, items[1..]);
  }

  lemma OrderRotate(q: Queues)
    requires WellFormed(q) && q.order != []
    ensures var id := q.order[0];
            && id in q.pending
            && Do(q, Rotate).order ==
                 (if PacketsOf(q.pending[id])[1..] == [] then q.order[1..] else q.order[1..] + [id])
  {
    RotateConsistent(q);
  }

  lemma MirrorsRotated(pending: map<ClientId, seq<Bytes>>, order: seq<ClientId>, id: ClientId, next: Queues)
    requires Sound(next) && order != [] && order[0] == id && id in pending && pending[id] != []
    requires next.order == if pending[id][1..] == [] then order[1..] else order[1..] + [id]
    requires Plain(next.pending) ==
               if pending[id][1..] == [] then pending - {id} else pending[id := pending[id][1..]]
    ensures var rest := pending[id][1..];
            if rest == [] then Mirrors(pending - {id}, order[1..], pending.Keys - {id}, next)
            else Mirrors(pending[id := rest], order[1..] + [id], pending.Keys, next)
  {
    KeysAfterRemoval(pending, id);
    KeysAfterUpdate(pending, id, pending[id][1..]);
    assert pending.Keys + {id} == pending.Keys;
  }

  lemma MirrorsRotate(pending: map<ClientId, seq<Bytes>>, order: seq<ClientId>, orderSet: set<ClientId>, q: Queues)
    requires Mirrors(pending, order, orderSet, q) && order != []
    ensures order[0] in pending && pending[order[0]] != [] && pending[order[0]][0] != []
    ensures var id := order[0];
            var rest := pending[id][1..];
            if rest == [] then Mirrors(pending - {id}, order[1..], orderSet - {id}, Do(q, Rotate))
            else Mirrors(pending[id := rest], order[1..] + [id], orderSet, Do(q, Rotate))
  {
    PlainRotate(q);
    OrderRotate(q);
    SoundStep(q, Rotate);
    MirrorsRotated(pending, order, order[0], Do(q, Rotate));
  }

  lemma HandedAppend(handed: seq<Item>, item: Item)
    ensures PacketsOf(handed + [item]) == PacketsOf(handed) + [item.packet]
  {}

  /** What a rotation hands over is the head packet of the first client. */
  lemma HandedRotate(pending: map<ClientId, seq<Bytes>>, order: seq<ClientId>, orderSet: set<ClientId>, q: Queues)
    requires Mirrors(pending, order, orderSet, q) && order != []
    ensures order[0] in pending && pending[order[0]] != []
    ensures PacketsOf(Do(q, Rotate).handed) == PacketsOf(q.handed) + [pending[order[0]][0]]
  {
    RotateTable(q);
    PacketsOfTail(q.pending[order[0]]);
    HandedAppend(q.handed, q.pending[order[0]][0]);
  }

  lemma PlainDrop(q: Queues, id: ClientId)
    ensures Plain(Do(q, Drop(id)).pending) == Plain(q.pending) - {id}
  {}

  lemma MirrorsDrop(pending: map<ClientId, seq<Bytes>>, order: seq<ClientId>, orderSet: set<ClientId>, q: Queues,
                    id: ClientId)
    requires Mirrors(pending, order, orderSet, q)
    ensures Mirrors(pending - {id}, Without(order, id), orderSet - {id}, Do(q, Drop(id)))
    ensures Do(q, Drop(id)).handed == q.handed
  {
    SoundStep(q, Drop(id));
    PlainDrop(q, id);
    KeysAfterRemoval(pending, id);
  }

  lemma EmptyTogether(pending: map<ClientId, seq<Bytes>>, order: seq<ClientId>, orderSet: set<ClientId>, q: Queues)
    requires Mirrors(pending, order, orderSet, q)
    ensures order == [] <==> pending == map[]
  {
    if order != [] {
      assert order[0] in order;
      assert order[0] in pending;
    } else {
      assert forall id :: id !in q.pending;
    }
  }

  lemma RemoveIsDrop(q: Queues, id: ClientId)
    ensures DoAll(q, Ops(Remove(id))) == Do(q, Drop(id))
  {
    assert [Drop(id)][..0] == [];
  }

  lemma RotationsAppend(q: Queues, n: nat)
    ensures DoAll(q, Rotations(n + 1)) == Do(DoAll(q, Rotations(n)), Rotate)
  {
    assert Rotations(n + 1)[..n] == Rotations(n);
  }

  /** Doing one more frame, directly only if all before it went directly. */
  lemma SendOneMore(q: Queues, id: ClientId, frames: seq<Bytes>, frame: Bytes, direct: nat, sent: bool)
    requires direct <= |frames| && (sent ==> direct == |frames|)
    ensures var op := if sent then Direct(id, frame) else Push(id, frame);
            Do(DoAll(q, SendOps(id, frames, direct)), op) ==
              DoAll(q, SendOps(id, frames + [frame], if sent then direct + 1 else direct))
  {
    var op := if sent then Direct(id, frame) else Push(id, frame);
    var ops := SendOps(id, frames + [frame], if sent then direct + 1 else direct);
    assert ops[..|frames|] == SendOps(id, frames, direct);
    assert ops[|frames|] == op;
  }

  /** The chunks still to come when `offset` bytes are done. */
  ghost function Rest(data: Bytes, offset: nat): seq<Bytes> {
    if offset < |data| then Chunks(data[offset..]) else []
  }

  lemma RestStep(data: Bytes, offset: nat)
    requires offset < |data|
    ensures var next := offset + Min(TUNNEL_CHUNK_BYTES, |data| - offset);
            next <= |data| && Rest(data, offset) == [data[offset..next]] + Rest(data, next)
  {
    var tail := data[offset..];
    if |tail| > TUNNEL_CHUNK_BYTES {
      var next := offset + TUNNEL_CHUNK_BYTES;
      assert tail[TUNNEL_CHUNK_BYTES..] == data[next..];
      assert tail[..TUNNEL_CHUNK_BYTES] == data[offset..next];
    } else {
      assert tail == data[offset..|data|];
    }
  }

  lemma SingleFrame(id: ClientId, data: Bytes, kind: Words.Word32)
    requires kind != DATA || |data| <= TUNNEL_CHUNK_BYTES
    ensures Frames(id, data, kind) == [BuildPacket(id, data, kind)]
  {}

  /** In the chunking loop, `done` are the chunks framed so far. */
  ghost predicate Chunked(data: Bytes, offset: nat, done: seq<Bytes>) {
    offset <= |data| && Chunks(data) == done + Rest(data, offset)
  }

  /** The first `direct` of them were sent directly, and the others queued. */
  ghost predicate Handled(before: Queues, q: Queues, id: ClientId, done: seq<Bytes>, direct: nat) {
    direct <= |done| && q == DoAll(before, SendOps(id, Framed(id, done), direct))
  }

  function NextOffset(data: Bytes, offset: nat): nat
    requires offset <= |data|
  {
    offset + Min(TUNNEL_CHUNK_BYTES, |data| - offset)
  }

  lemma ChunkedStep(data: Bytes, offset: nat, done: seq<Bytes>)
    requires Chunked(data, offset, done) && offset < |data|
    ensures var next := NextOffset(data, offset); Chunked(data, next, done + [data[offset..next]])
  {
    var next := NextOffset(data, offset);
    RestStep(data, offset);
    assert done + [data[offset..next]] + Rest(data, next) == done + ([data[offset..next]] + Rest(data, next));
  }

  lemma HandledStep(before: Queues, q: Queues, id: ClientId, done: seq<Bytes>, chunk: Bytes, direct: nat, sent: bool)
    requires Handled(before, q, id, done, direct) && (sent ==> direct == |done|)
    ensures var frame := BuildPacket(id, chunk, DATA);
            Handled(before, Do(q, if sent then Direct(id, frame) else Push(id, frame)), id, done + [chunk],
                    if sent then direct + 1 else direct)
  {
    var frame := BuildPacket(id, chunk, DATA);
    SendOneMore(before, id, Framed(id, done), frame, direct, sent);
    assert Framed(id, done + [chunk]) == Framed(id, done) + [frame];
  }

  /** The verdicts after a call that asked at least once, the first time with this answer. */
  predicate FirstVerdict(before: seq<bool>, after: seq<bool>, saturated: bool) {
    before <= after && |before| < |after| && after[|before|] == saturated
  }

  /** Inside a call: `done` chunks are handled, the first `direct` of them sent directly, and only a
      blocked start or a refusal has ended that. */
  predicate Chunking(blocked: bool, direct: nat, done: nat, saturated: bool, wasBlocked: bool, nowBlocked: bool,
                     refusedBefore: nat, refusedNow: nat)
  {
    && refusedBefore <= refusedNow
    && (if blocked then direct < done else direct == done)
    && (saturated ==> blocked && direct == 0 && (refusedBefore < refusedNow || wasBlocked))
    && (if done == 0 then nowBlocked == wasBlocked && refusedBefore == refusedNow
        else (blocked <==> saturated || refusedBefore < refusedNow) && (!blocked ==> !nowBlocked))
  }

  lemma ChunkingStep(blocked: bool, direct: nat, done: nat, saturated: bool, wasBlocked: bool, nowBlocked: bool,
                     refusedBefore: nat, refusedNow: nat,
                     saturated': bool, blocked': bool, nowBlocked': bool, refusedThen: nat)
    requires Chunking(blocked, direct, done, saturated, wasBlocked, nowBlocked, refusedBefore, refusedNow)
    requires refusedNow <= refusedThen && (blocked || saturated' ==> blocked') && (!blocked' ==> !nowBlocked')
    requires if blocked then refusedThen == refusedNow
             else (blocked' <==> saturated' || refusedNow < refusedThen)
                  && (saturated' ==> refusedNow < refusedThen || nowBlocked)
    ensures Chunking(blocked', if blocked' then direct else direct + 1, done + 1,
                     if done == 0 then saturated' else saturated, wasBlocked, nowBlocked', refusedBefore, refusedThen)
  {}

  /** A call sends all its frames directly, and leaves the sender unblocked, exactly if it did not
      find the link saturated and Steam refused nothing during it; and an unblocked sender finds
      the link saturated only by a refusal. */
  predicate AllDirectUnlessRefused(direct: nat, frames: nat, saturated: bool, wasBlocked: bool, blocked: bool,
                                   refusedBefore: nat, refusedAfter: nat)
  {
    && direct <= frames && refusedBefore <= refusedAfter
    && (direct == frames <==> !saturated && refusedBefore == refusedAfter)
    && (blocked <==> direct < frames)
    && (saturated ==> refusedBefore < refusedAfter || wasBlocked)
  }

  /** A flush that did not find the link saturated ends blocked exactly if Steam refused something
      during it, and otherwise has sent the whole backlog; one that did has sent nothing, and an
      unblocked sender finds the link saturated only by a refusal. */
  predicate EmptiedUnlessRefused(sends: nat, backlog: nat, saturated: bool, wasBlocked: bool, blocked: bool,
                                 refusedBefore: nat, refusedAfter: nat)
  {
    && sends <= backlog && refusedBefore <= refusedAfter
    && (saturated ==> sends == 0 && blocked && (refusedBefore < refusedAfter || wasBlocked))
    && (!saturated ==> (blocked <==> refusedBefore < refusedAfter))
    && (!blocked ==> sends == backlog)
  }

  /** With nothing left queued the sender is unblocked and the paused readers of live clients read
      again; otherwise nothing of that changes. */
  predicate ResumedIfEmpty(order: seq<ClientId>, blocked: bool, wasBlocked: bool,
                           paused: set<ClientId>, wasPaused: set<ClientId>,
                           reading: set<ClientId>, wasReading: set<ClientId>, clients: set<ClientId>)
  {
    if order == [] then !blocked && paused == {} && reading == wasReading + wasPaused * clients
    else blocked == wasBlocked && paused == wasPaused && reading == wasReading
  }

  /** How the sender stands when a call begins. */
  datatype Start = Start(q: Queues, blocked: bool, refusals: nat, verdicts: seq<bool>, order: seq<ClientId>, armed: bool)

  /** How far the chunking loop has come. */
  datatype Progress = Progress(done: seq<Bytes>, direct: nat, blocked: bool, saturated: bool)

  class MultiplexManager {
    var pendingPackets: map<ClientId, seq<Bytes>>
    var sendOrder: seq<ClientId>
    var sendOrderSet: set<ClientId>
    var pausedReads: set<ClientId>
    var sendBlocked: bool
    var flushScheduled: bool
    var backoffMs: int
    var lastBlocked: int
    /** The clients of the client map, and those with a socket read outstanding. */
    var clients: set<ClientId>
    var reading: set<ClientId>
    /** The packets Steam was given and did not ask back. It may still have refused them for
        another reason; the sender does not try those again. */
    var given: seq<Bytes>
    /** The answers isSendSaturated has given. */
    ghost var verdicts: seq<bool>
    /** What Steam and the clock have answered: how often a poll was at or above the high-water
        mark or a send had to wait, how often a poll was at or below the low-water mark, how many
        polls there were, and the last reading. */
    ghost var refusals: nat
    ghost var drains: nat
    ghost var polls: nat
    ghost var clock: int
    /** The queues with their history. */
    ghost var q: Queues
    /** The calls made so far. */
    ghost var calls: seq<Call>

    /** The containers store the queues, and Steam was given what the history says was handed
        over. */
    ghost predicate Valid()
      reads this
    {
      Mirrors(pendingPackets, sendOrder, sendOrderSet, q) && given == PacketsOf(q.handed)
    }

    /** What holds between callbacks: the queues are those the calls lead to, a backlog always
        has a flush armed, and every client is either being read or paused behind such a
        backlog. */
    ghost predicate Live()
      reads this
    {
      Steady() && Logged(calls, q) && SaturationHeeded(calls)
    }

    ghost predicate Steady()
      reads this
    {
      && Valid()
      && (sendOrder != [] ==> flushScheduled)
      && (pausedReads != {} ==> sendOrder != [])
      && (forall id | id in clients :: id in reading || id in pausedReads)
    }

    constructor ()
      ensures Live() && calls == [] && clients == {} && !sendBlocked
    {
      pendingPackets, sendOrder, sendOrderSet, pausedReads := map[], [], {}, {};
      sendBlocked, flushScheduled, backoffMs, lastBlocked := false, false, 5, 0;
      clients, reading, given := {}, {}, [];
      q, calls, verdicts := EMPTY, [], [];
      refusals, drains, polls, clock := 0, 0, 0, 0;
    }

    // ----- the oracle -----

    method ConnectionStatus() returns (ok: bool, pending: int)
      modifies this`refusals, this`drains, this`polls
      ensures refusals == old(refusals) + if ok && pending >= HIGH_WATER_BYTES then 1 else 0
      ensures drains == old(drains) + if ok && pending <= LOW_WATER_BYTES then 1 else 0
      ensures polls == old(polls) + 1
    {
      ok, pending := *, *;
      refusals := refusals + if ok && pending >= HIGH_WATER_BYTES then 1 else 0;
      drains := drains + if ok && pending <= LOW_WATER_BYTES then 1 else 0;
      polls := polls + 1;
    }

    method SendMessageToConnection(packet: Bytes) returns (result: SendResult)
      modifies this`given, this`refusals
      ensures given == if result == LimitExceeded then old(given) else old(given) + [packet]
      ensures refusals == old(refusals) + if result == LimitExceeded then 1 else 0
    {
      result := *;
      if result == LimitExceeded {
        refusals := refusals + 1;
      } else {
        given := given + [packet];
      }
    }

    method Now() returns (now: int)
      modifies this`clock
      ensures clock == now
    {
      now := *;
      clock := now;
    }

    // ----- sending -----

    method Block(limit: int)
      modifies this`lastBlocked, this`backoffMs, this`sendBlocked, this`clock
      ensures sendBlocked && lastBlocked == clock && backoffMs == Min(old(backoffMs) * 2, limit)
    {
      lastBlocked := Now();
      backoffMs := Min(backoffMs * 2, limit);
      sendBlocked := true;
    }

    /** The answer is always the value the blocked flag is left with. It is yes exactly if a poll
        was at or above the high-water mark, or the sender was blocked and no poll was at or below
        the low-water mark. Only a blocked sender within its back-off does without a poll. */
    method IsSendSaturated() returns (saturated: bool)
      modifies this`lastBlocked, this`backoffMs, this`sendBlocked, this`verdicts, this`refusals, this`drains, this`polls, this`clock
      ensures saturated == sendBlocked && verdicts == old(verdicts) + [saturated]
      ensures saturated <==> refusals > old(refusals) || (old(sendBlocked) && drains == old(drains))
      ensures if polls == old(polls) then old(sendBlocked) && clock - old(lastBlocked) < old(backoffMs)
              else polls == old(polls) + 1 && (old(sendBlocked) && refusals == old(refusals) ==>
                                                 clock - old(lastBlocked) >= old(backoffMs))
      ensures refusals == old(refusals) || refusals == old(refusals) + 1
      ensures backoffMs == if refusals > old(refusals) then Min(old(backoffMs) * 2, 200)
                           else if drains > old(drains) then 5 else old(backoffMs)
      ensures lastBlocked == if refusals > old(refusals) then clock else old(lastBlocked)
    {
      if sendBlocked {
        var now := Now();
        if now - lastBlocked < backoffMs {
          verdicts := verdicts + [true];
          return true;
        }
      }
      var ok, pending := ConnectionStatus();
      if ok {
        if pending >= HIGH_WATER_BYTES {
          Block(200);
          verdicts := verdicts + [true];
          return true;
        }
        if pending <= LOW_WATER_BYTES {
          sendBlocked, backoffMs := false, 5;
          verdicts := verdicts + [false];
          return false;
        }
      }
      verdicts := verdicts + [sendBlocked];
      return sendBlocked;
    }

    /** A packet counts as sent unless Steam asks to wait; a refused one leaves the
        sender blocked, a sent one leaves it unblocked. An unblocked sender sends it unless Steam
        does ask. */
    method TrySendPacket(packet: Bytes) returns (sent: bool)
      modifies this`lastBlocked, this`backoffMs, this`sendBlocked, this`verdicts, this`given, this`refusals, this`drains, this`polls, this`clock
      ensures packet != [] ==> sent == !sendBlocked
      ensures packet == [] ==> sent && sendBlocked == old(sendBlocked)
      ensures given == if sent && packet != [] then old(given) + [packet] else old(given)
      ensures old(verdicts) <= verdicts
      ensures old(refusals) <= refusals
      ensures sent ==> refusals == old(refusals)
      ensures !sent ==> refusals > old(refusals) || old(sendBlocked)
    {
      if packet == [] {
        return true;
      }
      var ok, pending := ConnectionStatus();
      if ok && pending >= HIGH_WATER_BYTES {
        Block(200);
        return false;
      }
      var saturated := IsSendSaturated();
      if saturated {
        return false;
      }
      var result := SendMessageToConnection(packet);
      if result == Ok {
        backoffMs := 5;
        return true;
      }
      if result == LimitExceeded {
        Block(100);
        return false;
      }
      return true;
    }

    method ScheduleFlush()
      modifies this`flushScheduled
      ensures flushScheduled == (old(flushScheduled) || sendOrder != [])
    {
      if !flushScheduled && sendOrder != [] {
        flushScheduled := true;
      }
    }

    /** Replaces the queues by others and the three containers that store them. */
    method Store(pending: map<ClientId, seq<Bytes>>, order: seq<ClientId>, orderSet: set<ClientId>, ghost next: Queues)
      requires Mirrors(pending, order, orderSet, next) && given == PacketsOf(next.handed)
      modifies this`pendingPackets, this`sendOrder, this`sendOrderSet, this`q
      ensures Valid() && q == next && pendingPackets == pending && sendOrder == order
    {
      pendingPackets, sendOrder, sendOrderSet, q := pending, order, orderSet, next;
    }

    method AddToQueue(id: ClientId, packet: Bytes)
      requires Valid() && packet != []
      modifies this`pendingPackets, this`sendOrder, this`sendOrderSet, this`q
      ensures Valid() && q == Do(old(q), Push(id, packet))
      ensures sendOrder != []
    {
      MirrorsPush(pendingPackets, sendOrder, sendOrderSet, q, id, packet);
      ghost var next := Do(q, Push(id, packet));
      var queue := if id in pendingPackets then pendingPackets[id] else [];
      var pending := pendingPackets[id := queue + [packet]];
      var order := if queue == [] && id !in sendOrderSet then sendOrder + [id] else sendOrder;
      EmptyTogether(pending, order, sendOrderSet + {id}, next);
      Store(pending, order, sendOrderSet + {id}, next);
    }

    method EnqueuePacket(id: ClientId, packet: Bytes)
      requires Valid() && packet != []
      modifies this`pendingPackets, this`sendOrder, this`sendOrderSet, this`flushScheduled, this`q
      ensures Valid() && q == Do(old(q), Push(id, packet))
      ensures flushScheduled && sendOrder != []
    {
      AddToQueue(id, packet);
      ScheduleFlush();
    }

    /** One packet: queued if the call is blocked already or the link turns out so. */
    method PushPacket(id: ClientId, packet: Bytes, blocked: bool)
      returns (nowBlocked: bool, ghost saturated: bool)
      requires Valid() && packet != []
      modifies this`pendingPackets, this`sendOrder, this`sendOrderSet, this`flushScheduled, this`q,
               this`lastBlocked, this`backoffMs, this`sendBlocked, this`verdicts, this`given,
               this`refusals, this`drains, this`polls, this`clock
      ensures Valid()
      ensures q == Do(old(q), if nowBlocked then Push(id, packet) else Direct(id, packet))
      ensures blocked || saturated ==> nowBlocked
      ensures if blocked then verdicts == old(verdicts) else FirstVerdict(old(verdicts), verdicts, saturated)
      ensures if nowBlocked then sendOrder != [] && flushScheduled
              else !sendBlocked && sendOrder == old(sendOrder) && flushScheduled == old(flushScheduled)
      ensures refusals >= old(refusals)
      ensures if blocked then refusals == old(refusals)
              else (nowBlocked <==> saturated || refusals > old(refusals))
                   && (saturated ==> refusals > old(refusals) || old(sendBlocked))
    {
      saturated := false;
      if blocked {
        EnqueuePacket(id, packet);
        return true, saturated;
      }
      var isSaturated := IsSendSaturated();
      saturated := isSaturated;
      if isSaturated {
        EnqueuePacket(id, packet);
        return true, saturated;
      }
      var sent := TrySendPacket(packet);
      if !sent {
        EnqueuePacket(id, packet);
        return true, saturated;
      }
      HandedAppend(q.handed, Item(id, |q.produced|, packet));
      q := Do(q, Direct(id, packet));
      return false, saturated;
    }

    ghost function Standing(): Start
      reads this
    {
      Start(q, sendBlocked, refusals, verdicts, sendOrder, flushScheduled)
    }

    /** In the chunking loop, `offset` bytes are done. */
    ghost predicate Sending(start: Start, id: ClientId, data: Bytes, offset: nat, p: Progress)
      reads this
    {
      && Valid() && Chunked(data, offset, p.done) && Handled(start.q, q, id, p.done, p.direct)
      && (offset == 0 <==> |p.done| == 0)
      && Chunking(p.blocked, p.direct, |p.done|, p.saturated, start.blocked, sendBlocked, start.refusals, refusals)
      && (if offset == 0 then verdicts == start.verdicts else FirstVerdict(start.verdicts, verdicts, p.saturated))
      && (if p.blocked then sendOrder != [] && flushScheduled
          else sendOrder == start.order && flushScheduled == start.armed)
    }

    /** A call has handled all its frames. */
    ghost predicate FramesSent(start: Start, id: ClientId, frames: seq<Bytes>, direct: nat, blocked: bool, saturated: bool)
      reads this
    {
      && Valid() && q == DoAll(start.q, SendOps(id, frames, direct))
      && Chunking(blocked, direct, |frames|, saturated, start.blocked, sendBlocked, start.refusals, refusals)
      && FirstVerdict(start.verdicts, verdicts, saturated)
      && (if blocked then sendOrder != [] && flushScheduled
          else sendOrder == start.order && flushScheduled == start.armed)
    }

    method SendChunk(ghost start: Start, id: ClientId, data: Bytes, offset: nat, blocked: bool, ghost p: Progress)
      returns (next: nat, nowBlocked: bool, ghost p': Progress)
      requires Sending(start, id, data, offset, p) && offset < |data| && p.blocked == blocked
      modifies this`pendingPackets, this`sendOrder, this`sendOrderSet, this`flushScheduled, this`q,
               this`lastBlocked, this`backoffMs, this`sendBlocked, this`verdicts, this`given,
               this`refusals, this`drains, this`polls, this`clock
      ensures offset < next <= |data| && Sending(start, id, data, next, p') && p'.blocked == nowBlocked
    {
      ghost var before, wasBlocked, refused := q, sendBlocked, refusals;
      ghost var saturated;
      next := NextOffset(data, offset);
      nowBlocked, saturated := PushPacket(id, BuildPacket(id, data[offset..next], DATA), blocked);
      ChunkedStep(data, offset, p.done);
      HandledStep(start.q, before, id, p.done, data[offset..next], p.direct, !nowBlocked);
      ChunkingStep(blocked, p.direct, |p.done|, p.saturated, start.blocked, wasBlocked, start.refusals, refused,
                   saturated, nowBlocked, sendBlocked, refusals);
      p' := Progress(p.done + [data[offset..next]], if nowBlocked then p.direct else p.direct + 1, nowBlocked,
                     if offset == 0 then saturated else p.saturated);
    }

    /** The chunking loop. */
    method SendChunks(id: ClientId, data: Bytes)
      returns (blocked: bool, ghost direct: nat, ghost foundSaturated: bool)
      requires Valid() && data != []
      modifies this`pendingPackets, this`sendOrder, this`sendOrderSet, this`flushScheduled, this`q,
               this`lastBlocked, this`backoffMs, this`sendBlocked, this`verdicts, this`given,
               this`refusals, this`drains, this`polls, this`clock
      ensures FramesSent(old(Standing()), id, Framed(id, Chunks(data)), direct, blocked, foundSaturated)
    {
      var offset := 0;
      blocked := false;
      ghost var start, p := Standing(), Progress([], 0, false, false);
      assert data[0..] == data;
      while offset < |data|
        invariant Sending(start, id, data, offset, p) && p.blocked == blocked
        decreases |data| - offset
      {
        offset, blocked, p := SendChunk(start, id, data, offset, blocked, p);
      }
      assert p.done + [] == p.done;
      direct, foundSaturated := p.direct, p.saturated;
    }

    /** A call with one frame. */
    method SendSingle(id: ClientId, packet: Bytes)
      returns (blocked: bool, ghost direct: nat, ghost foundSaturated: bool)
      requires Valid() && packet != []
      modifies this`pendingPackets, this`sendOrder, this`sendOrderSet, this`flushScheduled, this`q,
               this`lastBlocked, this`backoffMs, this`sendBlocked, this`verdicts, this`given,
               this`refusals, this`drains, this`polls, this`clock
      ensures FramesSent(old(Standing()), id, [packet], direct, blocked, foundSaturated)
    {
      ghost var start := Standing();
      blocked, foundSaturated := PushPacket(id, packet, false);
      direct := if blocked then 0 else 1;
      SendOneMore(start.q, id, [], packet, 0, !blocked);
      assert SendOps(id, [], 0) == [] && [] + [packet] == [packet];
    }

    /** Cuts the data into frames and sends them directly until the link first turns
        out to be saturated; from then on they are queued. */
    method SendTunnelPacket(id: ClientId, data: Bytes, kind: Words.Word32)
      returns (ghost direct: nat, ghost foundSaturated: bool)
      requires Valid()
      modifies this`pendingPackets, this`sendOrder, this`sendOrderSet, this`flushScheduled, this`q,
               this`lastBlocked, this`backoffMs, this`sendBlocked, this`verdicts, this`given,
               this`refusals, this`drains, this`polls, this`clock
      ensures Valid() && q == DoAll(old(q), SendOps(id, Frames(id, data, kind), direct))
      ensures foundSaturated ==> direct == 0
      ensures FirstVerdict(old(verdicts), verdicts, foundSaturated)
      ensures AllDirectUnlessRefused(direct, |Frames(id, data, kind)|, foundSaturated, old(sendBlocked), sendBlocked,
                                     old(refusals), refusals)
      ensures if sendBlocked then sendOrder != [] && flushScheduled
              else sendOrder == old(sendOrder) && flushScheduled == old(flushScheduled)
    {
      ghost var start := Standing();
      var blocked;
      if kind == DATA && |data| > TUNNEL_CHUNK_BYTES {
        blocked, direct, foundSaturated := SendChunks(id, data);
      } else {
        blocked, direct, foundSaturated := SendSingle(id, BuildPacket(id, data, kind));
        SingleFrame(id, data, kind);
      }
      assert FramesSent(start, id, Frames(id, data, kind), direct, blocked, foundSaturated);
      if blocked {
        sendBlocked := true;
        lastBlocked := Now();
      }
    }

    // ----- flushing -----

    /** Takes the head packet of the first client off its queue; the client moves to
        the back of the order, or leaves it with an empty queue. */
    method PopHead()
      requires Mirrors(pendingPackets, sendOrder, sendOrderSet, q) && sendOrder != []
      modifies this`pendingPackets, this`sendOrder, this`sendOrderSet, this`q
      ensures Mirrors(pendingPackets, sendOrder, sendOrderSet, q) && q == Do(old(q), Rotate)
    {
      MirrorsRotate(pendingPackets, sendOrder, sendOrderSet, q);
      var id := sendOrder[0];
      var rest := pendingPackets[id][1..];
      if rest != [] {
        pendingPackets := pendingPackets[id := rest];
        sendOrder := sendOrder[1..] + [id];
      } else {
        pendingPackets := pendingPackets - {id};
        sendOrder := sendOrder[1..];
        sendOrderSet := sendOrderSet - {id};
      }
      q := Do(q, Rotate);
    }

    /** One round of the flush loop: try the head packet of the first client. When
        Steam asks to wait, the source puts the client back at the front; here it has
        not been moved yet. */
    method FlushOne() returns (sent: bool)
      requires Valid() && sendOrder != []
      modifies this`pendingPackets, this`sendOrder, this`sendOrderSet, this`q,
               this`lastBlocked, this`backoffMs, this`sendBlocked, this`verdicts, this`given,
               this`refusals, this`drains, this`polls, this`clock
      ensures Valid() && sent == !sendBlocked
      ensures q == if sent then Do(old(q), Rotate) else old(q)
      ensures |given| == |old(given)| + (if sent then 1 else 0) && old(verdicts) <= verdicts
      ensures old(refusals) <= refusals && (sent ==> refusals == old(refusals))
      ensures !sent ==> refusals > old(refusals) || old(sendBlocked)
    {
      MirrorsRotate(pendingPackets, sendOrder, sendOrderSet, q);
      HandedRotate(pendingPackets, sendOrder, sendOrderSet, q);
      sent := TrySendPacket(pendingPackets[sendOrder[0]][0]);
      if sent {
        PopHead();
      }
    }

    /** Sends the head packet of each client in turn until Steam asks to wait or the
        queues are empty; in the second case all paused reads resume. */
    method FlushPendingPackets() returns (ghost sends: nat, ghost saturated: bool)
      requires Valid()
      modifies this`pendingPackets, this`sendOrder, this`sendOrderSet, this`q,
               this`lastBlocked, this`backoffMs, this`sendBlocked, this`verdicts, this`given,
               this`refusals, this`drains, this`polls, this`clock, this`reading, this`pausedReads
      ensures Valid() && q == DoAll(old(q), Rotations(sends))
      ensures if sendBlocked then reading == old(reading) && pausedReads == old(pausedReads)
                                  && (old(sendOrder) != [] ==> sendOrder != [])
              else sendOrder == [] && pausedReads == {} && reading == old(reading) + old(pausedReads) * clients
      ensures FirstVerdict(old(verdicts), verdicts, saturated)
      ensures EmptiedUnlessRefused(sends, Backlog(old(q).order, old(q).pending), saturated, old(sendBlocked), sendBlocked,
                                   old(refusals), refusals)
      ensures |given| == |old(given)| + sends
    {
      sends := 0;
      assert Rotations(0) == [];
      var isSaturated := IsSendSaturated();
      saturated := isSaturated;
      if isSaturated {
        return;
      }
      sends := FlushQueues();
      if !sendBlocked {
        ResumePausedReads();
      }
    }

    /** The sending loop, entered with the sender unblocked. */
    method FlushQueues() returns (ghost sends: nat)
      requires Valid() && !sendBlocked
      modifies this`pendingPackets, this`sendOrder, this`sendOrderSet, this`q,
               this`lastBlocked, this`backoffMs, this`sendBlocked, this`verdicts, this`given,
               this`refusals, this`drains, this`polls, this`clock
      ensures Valid() && q == DoAll(old(q), Rotations(sends))
      ensures sends + Backlog(q.order, q.pending) == Backlog(old(q).order, old(q).pending)
      ensures |given| == |old(given)| + sends && old(verdicts) <= verdicts && old(refusals) <= refusals
      ensures sendBlocked <==> refusals > old(refusals)
      ensures sendBlocked <==> sendOrder != []
    {
      sends := 0;
      assert Rotations(0) == [];
      while sendOrder != []
        invariant Valid() && q == DoAll(old(q), Rotations(sends))
        invariant !sendBlocked && refusals == old(refusals) && old(verdicts) <= verdicts
        invariant sends + Backlog(q.order, q.pending) == Backlog(old(q).order, old(q).pending)
        invariant |given| == |old(given)| + sends
        decreases Backlog(q.order, q.pending)
      {
        RotateShrinks(q);
        RotationsAppend(old(q), sends);
        var sent := FlushOne();
        if !sent {
          return;
        }
        sends := sends + 1;
      }
      sendBlocked := false;
    }

    method StartAsyncRead(id: ClientId)
      modifies this`reading
      ensures reading == old(reading) + if id in clients then {id} else {}
    {
      if id in clients {
        reading := reading + {id};
      }
    }

    method ResumePausedReads()
      modifies this`reading, this`pausedReads
      ensures pausedReads == {} && reading == old(reading) + old(pausedReads) * clients
    {
      var toResume := pausedReads;
      pausedReads := {};
      while toResume != {}
        invariant toResume <= old(pausedReads) && pausedReads == {}
        invariant reading == old(reading) + (old(pausedReads) - toResume) * clients
        decreases toResume
      {
        var id :| id in toResume;
        toResume := toResume - {id};
        StartAsyncRead(id);
      }
    }

    // ----- the callbacks -----

    /** Notes a call that has just been carried out. */
    ghost method Note(call: Call, before: Queues)
      requires Logged(calls, before) && q == DoAll(before, Ops(call))
      requires SaturationHeeded(calls) && SaturationHeeded([call])
      modifies this`calls
      ensures calls == old(calls) + [call] && Logged(calls, q) && SaturationHeeded(calls)
    {
      LogOneMore(calls, before, call);
      calls := calls + [call];
    }

    /** The flush itself: no reader is left paused without a backlog, and none is lost. */
    method FlushUnless(error: bool) returns (ghost sends: nat, ghost saturated: bool)
      requires Steady()
      modifies this`pendingPackets, this`sendOrder, this`sendOrderSet, this`q,
               this`lastBlocked, this`backoffMs, this`sendBlocked, this`verdicts, this`given,
               this`refusals, this`drains, this`polls, this`clock, this`reading, this`pausedReads
      ensures Valid() && q == DoAll(old(q), Ops(Flush(sends)))
      ensures pausedReads != {} ==> sendOrder != []
      ensures forall id | id in clients :: id in reading || id in pausedReads
      ensures if error then sends == 0 && sendBlocked == old(sendBlocked)
              else FirstVerdict(old(verdicts), verdicts, saturated)
                   && EmptiedUnlessRefused(sends, Backlog(old(q).order, old(q).pending), saturated, old(sendBlocked),
                                           sendBlocked, old(refusals), refusals)
    {
      sends, saturated := 0, false;
      assert Rotations(0) == [];
      if !error {
        sends, saturated := FlushPendingPackets();
      }
    }

    /** The flush timer fires; with an error code it only re-arms itself. */
    method OnTimer(error: bool) returns (ghost sends: nat, ghost saturated: bool)
      requires Live() && flushScheduled
      modifies this
      ensures Live() && calls == old(calls) + [Flush(sends)] && clients == old(clients)
      ensures flushScheduled <==> sendOrder != []
      ensures if error then sends == 0 && sendBlocked == old(sendBlocked)
              else FirstVerdict(old(verdicts), verdicts, saturated)
                   && EmptiedUnlessRefused(sends, Backlog(old(q).order, old(q).pending), saturated, old(sendBlocked),
                                           sendBlocked, old(refusals), refusals)
    {
      ghost var before := q;
      sends, saturated := FlushUnless(error);
      Note(Flush(sends), before);
      flushScheduled := false;
      if sendOrder != [] {
        ScheduleFlush();
      }
    }

    /** One call of sendTunnelPacket, noted. */
    method SendNoted(id: ClientId, data: Bytes, kind: Words.Word32) returns (ghost direct: nat, ghost saturated: bool)
      requires Valid() && Logged(calls, q) && SaturationHeeded(calls)
      modifies this`pendingPackets, this`sendOrder, this`sendOrderSet, this`flushScheduled, this`q, this`calls,
               this`lastBlocked, this`backoffMs, this`sendBlocked, this`verdicts, this`given,
               this`refusals, this`drains, this`polls, this`clock
      ensures Valid() && Logged(calls, q) && SaturationHeeded(calls)
      ensures calls == old(calls) + [Tunnel(id, Frames(id, data, kind), direct, saturated)]
      ensures FirstVerdict(old(verdicts), verdicts, saturated)
      ensures AllDirectUnlessRefused(direct, |Frames(id, data, kind)|, saturated, old(sendBlocked), sendBlocked,
                                     old(refusals), refusals)
      ensures if sendBlocked then sendOrder != [] && flushScheduled
              else sendOrder == old(sendOrder) && flushScheduled == old(flushScheduled)
    {
      ghost var before := q;
      direct, saturated := SendTunnelPacket(id, data, kind);
      Note(Tunnel(id, Frames(id, data, kind), direct, saturated), before);
    }

    /** The bytes of a read are sent; if that leaves the sender blocked, the reader pauses. */
    method ForwardRead(id: ClientId, data: Bytes) returns (ghost direct: nat, ghost saturated: bool)
      requires Valid() && Logged(calls, q) && SaturationHeeded(calls)
      requires (sendOrder != [] ==> flushScheduled) && (pausedReads != {} ==> sendOrder != [])
      requires forall c | c in clients && c != id :: c in reading || c in pausedReads
      modifies this
      ensures Live() && clients == old(clients)
      ensures calls == old(calls) + [Tunnel(id, Frames(id, data, DATA), direct, saturated)]
      ensures FirstVerdict(old(verdicts), verdicts, saturated)
      ensures AllDirectUnlessRefused(direct, |Frames(id, data, DATA)|, saturated, old(sendBlocked), sendBlocked,
                                     old(refusals), refusals)
      ensures if sendBlocked then pausedReads == old(pausedReads) + {id} && reading == old(reading)
              else pausedReads == old(pausedReads) && reading == old(reading) + ({id} * clients)
    {
      direct, saturated := SendNoted(id, data, DATA);
      if sendBlocked {
        pausedReads := pausedReads + {id};
      } else {
        StartAsyncRead(id);
      }
    }

    /** A socket read completes with some bytes, or with an error. */
    method OnRead(id: ClientId, error: bool, data: Bytes) returns (ghost direct: nat, ghost saturated: bool)
      requires Live() && id in reading
      modifies this
      ensures Live()
      ensures calls == old(calls) + if error then [Remove(id)]
                                    else if data == [] then []
                                    else [Tunnel(id, Frames(id, data, DATA), direct, saturated)]
      ensures !error && data != [] ==>
                && FirstVerdict(old(verdicts), verdicts, saturated)
                && AllDirectUnlessRefused(direct, |Frames(id, data, DATA)|, saturated, old(sendBlocked), sendBlocked,
                                          old(refusals), refusals)
      // a reader pauses exactly if its data left the sender blocked
      ensures !error ==>
                if data != [] && sendBlocked
                then pausedReads == old(pausedReads) + {id} && reading == old(reading) - {id}
                else pausedReads == old(pausedReads) && reading == old(reading) - {id} + ({id} * clients)
    {
      direct, saturated := 0, false;
      reading := reading - {id};
      if error {
        var removed := RemoveClient(id);
      } else if data != [] {
        direct, saturated := ForwardRead(id, data);
      } else {
        StartAsyncRead(id);
      }
    }

    method AddClient(id: ClientId)
      requires Live() && id !in clients
      modifies this`clients, this`reading
      ensures Live() && calls == old(calls) && clients == old(clients) + {id}
    {
      clients := clients + {id};
      StartAsyncRead(id);
    }

    method DropQueue(id: ClientId)
      requires Valid()
      modifies this`pendingPackets, this`sendOrder, this`sendOrderSet, this`q
      ensures Valid() && q == Do(old(q), Drop(id))
      ensures sendOrder == [] <==> pendingPackets == map[]
      ensures sendOrder != [] ==> old(sendOrder) != []
    {
      MirrorsDrop(pendingPackets, sendOrder, sendOrderSet, q, id);
      ghost var next := Do(q, Drop(id));
      var pending, order := pendingPackets - {id}, Without(sendOrder, id);
      EmptyTogether(pending, order, sendOrderSet - {id}, next);
      assert sendOrder == [] ==> order == [];
      Store(pending, order, sendOrderSet - {id}, next);
    }

    /** Forgets the client with its queue. An emptied backlog unblocks the sender and
        resumes the readers paused behind it. */
    method Forget(id: ClientId)
      requires Valid() && (sendOrder != [] ==> flushScheduled) && (pausedReads != {} ==> sendOrder != [])
      requires forall c | c in clients && c != id :: c in reading || c in pausedReads
      modifies this
      ensures Steady() && q == Do(old(q), Drop(id)) && calls == old(calls)
      ensures clients == old(clients) - {id} && given == old(given)
      ensures ResumedIfEmpty(sendOrder, sendBlocked, old(sendBlocked), pausedReads, old(pausedReads) - {id},
                             reading, old(reading), clients)
    {
      clients := clients - {id};
      pausedReads := pausedReads - {id};
      DropQueue(id);
      if pendingPackets == map[] {
        sendBlocked := false;
        ResumePausedReads();
      }
    }

    method RemoveClient(id: ClientId) returns (removed: bool)
      requires Valid() && (sendOrder != [] ==> flushScheduled) && (pausedReads != {} ==> sendOrder != [])
      requires Logged(calls, q) && SaturationHeeded(calls)
      requires forall c | c in clients && c != id :: c in reading || c in pausedReads
      modifies this
      ensures Live() && calls == old(calls) + [Remove(id)]
      ensures removed == (id in old(clients)) && clients == old(clients) - {id} && given == old(given)
      ensures ResumedIfEmpty(sendOrder, sendBlocked, old(sendBlocked), pausedReads, old(pausedReads) - {id},
                             reading, old(reading), clients)
    {
      removed := id in clients;
      RemoveIsDrop(q, id);
      ghost var before := q;
      Forget(id);
      Note(Remove(id), before);
    }

    /** A packet arrives from the peer. A host tries to open a local connection for an id it
        does not know. The payload goes to the client; without one, a disconnect packet goes
        back, unless the attempt failed just before. */
    method HandleTunnelPacket(packet: Bytes, isHost: bool, attempt: Attempt)
      returns (delivered: seq<(ClientId, Bytes)>, ghost direct: nat, ghost saturated: bool)
      requires Live()
      modifies this
      ensures Live()
      ensures var parsed := ParsePacket(packet);
              delivered == if parsed.Data? && (parsed.id in old(clients) || (isHost && attempt.Connects?))
                           then [(parsed.id, parsed.payload)] else []
      ensures calls == old(calls) +
                match ParsePacket(packet)
                case Disconnect(id) => [Remove(id)]
                case Data(id, _) =>
                  if delivered != [] || (id !in old(clients) && isHost && attempt.FailedJustNow?) then []
                  else [Tunnel(id, Frames(id, [], DISCONNECT), direct, saturated)]
                case _ => []
      ensures clients == match ParsePacket(packet)
                         case Disconnect(id) => old(clients) - {id}
                         case Data(id, _) => if delivered != [] then old(clients) + {id} else old(clients)
                         case _ => old(clients)
    {
      delivered, direct, saturated := [], 0, false;
      match ParsePacket(packet)
      case Invalid =>
      case Unknown(_) =>
      case Disconnect(id) =>
        var removed := RemoveClient(id);
      case Data(id, payload) =>
        if id !in clients && isHost {
          if attempt == FailedJustNow {
            return;
          }
          if attempt == Connects {
            AddClient(id);
          }
        }
        if id in clients {
          delivered := [(id, payload)];
        } else {
          direct, saturated := SendFor(id, [], DISCONNECT);
        }
    }

    /** sendTunnelPacket as a callback of its own: the TCP server calls it for what it reads
        itself. */
    method SendFor(id: ClientId, data: Bytes, kind: Words.Word32) returns (ghost direct: nat, ghost saturated: bool)
      requires Live()
      modifies this
      ensures Live() && calls == old(calls) + [Tunnel(id, Frames(id, data, kind), direct, saturated)]
      ensures FirstVerdict(old(verdicts), verdicts, saturated)
      ensures AllDirectUnlessRefused(direct, |Frames(id, data, kind)|, saturated, old(sendBlocked), sendBlocked,
                                     old(refusals), refusals)
      ensures clients == old(clients) && reading == old(reading) && pausedReads == old(pausedReads)
    {
      direct, saturated := SendNoted(id, data, kind);
    }
  }
}
