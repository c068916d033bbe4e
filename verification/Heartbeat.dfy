/** The heartbeat manager's node table and its address index, and the timing that
    keeps a live peer's lease from running out. */
module Heartbeat {
  import opened Words
  import opened NodeIdentity

  const HEARTBEAT_INTERVAL_MS: int := 60_000
  const LEASE_EXPIRY_MS: int := 360_000

  datatype NodeInfo = NodeInfo(
    steamId: Word64, ipAddress: Word32, lastHeartbeat: int, name: string, isLocal: bool)

  datatype Tables = Tables(nodes: map<NodeID, NodeInfo>, index: map<Word32, NodeID>)

  datatype Event =
    | Register(id: NodeID, info: NodeInfo)
    | Beat(id: NodeID, info: NodeInfo)
    | Unregister(id: NodeID)
    | Sweep(now: int)

  predicate LeaseExpired(info: NodeInfo, now: int) {
    now - info.lastHeartbeat >= LEASE_EXPIRY_MS
  }

  predicate Evicted(t: Tables, id: NodeID, now: int) {
    id in t.nodes && !t.nodes[id].isLocal && LeaseExpired(t.nodes[id], now)
  }

  function Stored(t: Tables, id: NodeID, info: NodeInfo): Tables {
    Tables(t.nodes[id := info], t.index[info.ipAddress := id])
  }

  function Without(t: Tables, ids: set<NodeID>): Tables {
    Tables(map id | id in t.nodes && id !in ids :: t.nodes[id],
           t.index - (set id | id in ids && id in t.nodes :: t.nodes[id].ipAddress))
  }

  /** A heartbeat of a known node only renews its lease; the address it carries counts
      for a new node alone. */
  function Next(t: Tables, e: Event): Tables {
    match e
    case Register(id, info) => Stored(t, id, info)
    case Beat(id, info) =>
      if id in t.nodes
      then t.(nodes := t.nodes[id := t.nodes[id].(lastHeartbeat := info.lastHeartbeat)])
      else Stored(t, id, info)
    case Unregister(id) => Without(t, {id})
    case Sweep(now) => Without(t, set id | id in t.nodes && Evicted(t, id, now))
  }

  function After(t: Tables, events: seq<Event>): Tables {
    if events == [] then t else Next(After(t, events[..|events| - 1]), events[|events| - 1])
  }

  // ----- what the events do to a node and to an address -----

  /** A registration replaces the node's entry, a heartbeat stores that of an unknown node and moves
      only the time of a known one, and either way no other node changes. A node leaves when it is
      unregistered, or by a sweep six minutes or more after its last heartbeat unless it is local. */
  lemma NodeExactly(t: Tables, e: Event, id: NodeID)
    ensures var t' := Next(t, e);
            match e
            case Register(x, info) =>
              if id == x then id in t'.nodes && t'.nodes[id] == info else SameNode(t, t', id)
            case Beat(x, info) =>
              if id != x then SameNode(t, t', id)
              else
                && id in t'.nodes
                && t'.nodes[id] == (if id !in t.nodes then info
                                    else var a := t.nodes[id];
                                      NodeInfo(a.steamId, a.ipAddress, info.lastHeartbeat, a.name, a.isLocal))
            case Unregister(x) => if id == x then id !in t'.nodes else SameNode(t, t', id)
            case Sweep(now) =>
              if id in t.nodes && !t.nodes[id].isLocal && now - t.nodes[id].lastHeartbeat >= 360_000
              then id !in t'.nodes else SameNode(t, t', id)
  {}

  ghost predicate SameNode(t: Tables, t': Tables, id: NodeID) {
    (id in t.nodes <==> id in t'.nodes) && (id in t.nodes ==> t'.nodes[id] == t.nodes[id])
  }

  ghost predicate SameAddress(t: Tables, t': Tables, ip: Word32) {
    (ip in t.index <==> ip in t'.index) && (ip in t.index ==> t'.index[ip] == t.index[ip])
  }

  /** The node leaves the table at this address. */
  ghost predicate LeavesAt(t: Tables, t': Tables, ip: Word32) {
    exists id :: id in t.nodes && id !in t'.nodes && t.nodes[id].ipAddress == ip
  }

  /** A node stored is indexed at the address given, a node that leaves takes the index entry of its
      address with it, and nothing else changes the index. */
  lemma AddressExactly(t: Tables, e: Event, ip: Word32)
    ensures var t' := Next(t, e);
            if (e.Register? || (e.Beat? && e.id !in t.nodes)) && e.info.ipAddress == ip
            then ip in t'.index && t'.index[ip] == e.id
            else if LeavesAt(t, t', ip) then ip !in t'.index
            else SameAddress(t, t', ip)
  {}

  predicate Renews(e: Event, id: NodeID) {
    (e.Register? || e.Beat?) && e.id == id
  }

  /** The event ends a node of which nothing is heard. */
  predicate Ends(e: Event, id: NodeID, info: NodeInfo) {
    match e
    case Register(_, _) => false
    case Beat(_, _) => false
    case Unregister(x) => x == id
    case Sweep(now) => !info.isLocal && now - info.lastHeartbeat >= 360_000
  }

  /** While nothing is heard of a node it stays as it was, until it is unregistered or, unless it is
      local, a sweep comes six minutes or more after its last heartbeat; then it is gone. */
  lemma {:induction false} SilentNodeExactly(t: Tables, events: seq<Event>, id: NodeID)
    requires id in t.nodes && forall e | e in events :: !Renews(e, id)
    ensures id in After(t, events).nodes <==> forall e | e in events :: !Ends(e, id, t.nodes[id])
    ensures id in After(t, events).nodes ==> After(t, events).nodes[id] == t.nodes[id]
  {
    if events != [] {
      var n := |events| - 1;
      assert events == events[..n] + [events[n]];
      SilentNodeExactly(t, events[..n], id);
      NodeExactly(After(t, events[..n]), events[n], id);
      assert events[n] in events;
    }
  }

  /** The index maps an address to a node exactly when the node table has the node at
      that address. */
  ghost predicate Inverse(t: Tables) {
    forall ip: Word32, id: NodeID :: Matches(t, ip, id)
  }

  ghost predicate Matches(t: Tables, ip: Word32, id: NodeID) {
    (ip in t.index && t.index[ip] == id) <==> (id in t.nodes && t.nodes[id].ipAddress == ip)
  }

  /** The event takes no address from another live node and moves no node. */
  predicate Clean(t: Tables, e: Event) {
    match e
    case Register(id, info) => CleanStore(t, id, info.ipAddress)
    case Beat(id, info) => id in t.nodes || CleanStore(t, id, info.ipAddress)
    case Unregister(_) => true
    case Sweep(_) => true
  }

  predicate CleanStore(t: Tables, id: NodeID, ip: Word32) {
    && (id in t.nodes ==> t.nodes[id].ipAddress == ip)
    && (forall other | other in t.nodes && other != id :: t.nodes[other].ipAddress != ip)
  }

  lemma StoreInverse(t: Tables, id: NodeID, info: NodeInfo)
    requires Inverse(t)
    ensures Inverse(Stored(t, id, info)) <==> CleanStore(t, id, info.ipAddress)
  {
    var t', ip := Stored(t, id, info), info.ipAddress;
    if CleanStore(t, id, ip) {
      forall ip': Word32, id': NodeID ensures Matches(t', ip', id') {
        assert Matches(t, ip', id');
      }
    } else if id in t.nodes && t.nodes[id].ipAddress != ip {
      var stale := t.nodes[id].ipAddress;
      assert Matches(t, stale, id);
      assert !Matches(t', stale, id);
    } else {
      var other :| other in t.nodes && other != id && t.nodes[other].ipAddress == ip;
      assert !Matches(t', ip, other);
    }
  }

  lemma IndexLookup(t: Tables, ip: Word32)
    requires Inverse(t)
    ensures ip in t.index ==> t.index[ip] in t.nodes && t.nodes[t.index[ip]].ipAddress == ip
    ensures forall id | id in t.nodes && t.nodes[id].ipAddress == ip :: ip in t.index && t.index[ip] == id
  {
    if ip in t.index {
      assert Matches(t, ip, t.index[ip]);
    }
    forall id | id in t.nodes && t.nodes[id].ipAddress == ip ensures ip in t.index && t.index[ip] == id {
      assert Matches(t, ip, id);
    }
  }

  lemma WithoutInverse(t: Tables, ids: set<NodeID>)
    requires Inverse(t)
    ensures Inverse(Without(t, ids))
  {
    var t' := Without(t, ids);
    forall ip: Word32, id: NodeID ensures Matches(t', ip, id) {
      assert Matches(t, ip, id);
      IndexLookup(t, ip);
    }
  }

  lemma InverseStep(t: Tables, e: Event)
    requires Inverse(t)
    ensures Inverse(Next(t, e)) <==> Clean(t, e)
  {
    match e
    case Register(id, info) => StoreInverse(t, id, info);
    case Beat(id, info) =>
      if id in t.nodes {
        RenewInverse(t, id, info.lastHeartbeat);
      } else {
        StoreInverse(t, id, info);
      }
    case Unregister(id) => WithoutInverse(t, {id});
    case Sweep(now) => WithoutInverse(t, set id | id in t.nodes && Evicted(t, id, now));
  }

  lemma RenewInverse(t: Tables, id: NodeID, now: int)
    requires Inverse(t) && id in t.nodes
    ensures Inverse(t.(nodes := t.nodes[id := t.nodes[id].(lastHeartbeat := now)]))
  {
    var t' := t.(nodes := t.nodes[id := t.nodes[id].(lastHeartbeat := now)]);
    forall ip: Word32, id': NodeID ensures Matches(t', ip, id') {
      assert Matches(t, ip, id');
    }
  }

  const EMPTY := Tables(map[], map[])

  predicate AllClean(events: seq<Event>) {
    events != [] ==>
      var n := |events| - 1; AllClean(events[..n]) && Clean(After(EMPTY, events[..n]), events[n])
  }

  ghost predicate AlwaysInverse(events: seq<Event>) {
    Inverse(After(EMPTY, events)) && (events != [] ==> AlwaysInverse(events[..|events| - 1]))
  }

  /** The index stays the exact inverse of the address column throughout a history of
      events if and only if each of them was clean when it happened. */
  lemma {:induction false} IndexAgreesExactly(events: seq<Event>)
    ensures AlwaysInverse(events) <==> AllClean(events)
  {
    if events != [] {
      var n := |events| - 1;
      IndexAgreesExactly(events[..n]);
      if AllClean(events[..n]) {
        InverseStep(After(EMPTY, events[..n]), events[n]);
      }
    }
  }

  /** A node that negotiates a second address leaves a stale index entry behind. */
  lemma RenegotiationLeavesStaleEntry(id: NodeID, info: NodeInfo, ip: Word32)
    requires ip != info.ipAddress
    ensures var t := After(EMPTY, [Register(id, info), Register(id, info.(ipAddress := ip))]);
            info.ipAddress in t.index && t.nodes[id].ipAddress == ip && !Inverse(t)
  {
    var first := Register(id, info);
    var events := [first, Register(id, info.(ipAddress := ip))];
    assert events[..1] == [first] && [first][..0] == [];
    assert After(EMPTY, [first]) == Stored(EMPTY, id, info);
    var t := After(EMPTY, events);
    assert !Matches(t, info.ipAddress, id);
  }

  class HeartbeatManager {
    const localNodeId: NodeID
    var nodeTable: map<NodeID, NodeInfo>
    var ipToNodeId: map<Word32, NodeID>

    ghost function Current(): Tables
      reads this
    {
      Tables(nodeTable, ipToNodeId)
    }

    constructor (localNodeId: NodeID)
      ensures Current() == EMPTY && this.localNodeId == localNodeId
    {
      this.localNodeId := localNodeId;
      nodeTable, ipToNodeId := map[], map[];
    }

    method HandleHeartbeat(id: NodeID, ip: Word32, peer: Word64, name: string, now: int)
      modifies this
      ensures Current() == Next(old(Current()), Beat(id, NodeInfo(peer, ip, now, name, false)))
    {
      if id in nodeTable {
        nodeTable := nodeTable[id := nodeTable[id].(lastHeartbeat := now)];
      } else {
        nodeTable := nodeTable[id := NodeInfo(peer, ip, now, name, false)];
        ipToNodeId := ipToNodeId[ip := id];
      }
    }

    method RegisterNode(id: NodeID, steamId: Word64, ip: Word32, name: string, now: int)
      modifies this
      ensures Current() == Next(old(Current()), Register(id, NodeInfo(steamId, ip, now, name, id == localNodeId)))
    {
      nodeTable := nodeTable[id := NodeInfo(steamId, ip, now, name, id == localNodeId)];
      ipToNodeId := ipToNodeId[ip := id];
    }

    method UnregisterNode(id: NodeID)
      modifies this
      ensures Current() == Next(old(Current()), Unregister(id))
    {
      if id in nodeTable {
        ipToNodeId := ipToNodeId - {nodeTable[id].ipAddress};
        nodeTable := nodeTable - {id};
      }
      assert nodeTable == Next(old(Current()), Unregister(id)).nodes;
    }

    method FindNodeByIP(ip: Word32) returns (found: bool, id: NodeID)
      ensures found <==> ip in ipToNodeId
      ensures found ==> id == ipToNodeId[ip]
      ensures Inverse(Current()) ==>
                (found ==> id in nodeTable && nodeTable[id].ipAddress == ip)
                && (!found ==> forall other | other in nodeTable :: nodeTable[other].ipAddress != ip)
    {
      if Inverse(Current()) {
        IndexLookup(Current(), ip);
      }
      found := ip in ipToNodeId;
      id := if found then ipToNodeId[ip] else seq(NODE_ID_SIZE, _ => 0);
    }

    /** Evicts and reports exactly the remote nodes whose lease has run out, each once. */
    method CheckExpiredLeases(now: int) returns (expired: seq<(NodeID, Word32)>)
      modifies this
      ensures Current() == Next(old(Current()), Sweep(now))
      ensures forall id, ip ::
                (id, ip) in expired <==> Evicted(old(Current()), id, now) && old(nodeTable)[id].ipAddress == ip
      ensures forall i, j | 0 <= i < j < |expired| :: expired[i].0 != expired[j].0
    {
      ghost var before := Current();
      expired := [];
      var rest := nodeTable.Keys;
      while rest != {}
        invariant rest <= before.nodes.Keys
        invariant Current() == Without(before, set id | id in before.nodes && id !in rest && Evicted(before, id, now))
        invariant forall id, ip ::
                    (id, ip) in expired <==> id !in rest && Evicted(before, id, now) && before.nodes[id].ipAddress == ip
        invariant forall i, j | 0 <= i < j < |expired| :: expired[i].0 != expired[j].0
        decreases rest
      {
        var id :| id in rest;
        SweepOne(before, rest, id, now);
        rest := rest - {id};
        if !nodeTable[id].isLocal && LeaseExpired(nodeTable[id], now) {
          var ip := nodeTable[id].ipAddress;
          expired := expired + [(id, ip)];
          ipToNodeId := ipToNodeId - {ip};
          nodeTable := nodeTable - {id};
        }
      }
      assert (set id | id in before.nodes && id !in rest && Evicted(before, id, now))
          == (set id | id in before.nodes && Evicted(before, id, now));
    }
  }

  /** Visiting one more node extends the eviction by that node, or not at all. */
  lemma SweepOne(t: Tables, rest: set<NodeID>, id: NodeID, now: int)
    requires id in rest && rest <= t.nodes.Keys
    ensures var done := set x | x in t.nodes && x !in rest && Evicted(t, x, now);
            var done' := set x | x in t.nodes && x !in rest - {id} && Evicted(t, x, now);
            && id in Without(t, done).nodes && Without(t, done).nodes[id] == t.nodes[id]
            && Without(t, done') ==
                 (if Evicted(t, id, now)
                  then Tables(Without(t, done).nodes - {id}, Without(t, done).index - {t.nodes[id].ipAddress})
                  else Without(t, done))
  {
    var done := set x | x in t.nodes && x !in rest && Evicted(t, x, now);
    var done' := set x | x in t.nodes && x !in rest - {id} && Evicted(t, x, now);
    assert done' == if Evicted(t, id, now) then done + {id} else done;
    var gone := set x | x in done && x in t.nodes :: t.nodes[x].ipAddress;
    var gone' := set x | x in done' && x in t.nodes :: t.nodes[x].ipAddress;
    assert gone' == if Evicted(t, id, now) then gone + {t.nodes[id].ipAddress} else gone;
  }
}
