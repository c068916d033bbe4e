/** The bridge: the routing table it updates in place, and the negotiator whose used
    set it keeps in step. TUN device, sockets and heartbeats are not modelled. */
module VpnBridging {
  import opened Options
  import opened Words
  import opened NodeIdentity
  import opened Subnet
  import opened IpNegotiation
  import opened RouteTable
  import Heartbeat

  // ----- sweeping entries out of the table -----

  ghost function Swept(table: Table, gone: set<Word32>): Table {
    table - gone
  }

  /** The addresses an account leaves when it is routed at ip. */
  ghost function MovedFrom(table: Table, steamId: Word64, ip: Word32): set<Word32> {
    AddressesOf(table, steamId) - {ip}
  }

  lemma SweptFirst(table: Table, victims: set<Word32>)
    requires victims <= table.Keys
    ensures Swept(table, victims - table.Keys) == table
  {
    assert victims - table.Keys == {};
  }

  lemma SweptStep(table: Table, victims: set<Word32>, rest: set<Word32>, k: Word32)
    requires k in rest && k in table
    ensures k in Swept(table, victims - rest) && Swept(table, victims - rest)[k] == table[k]
    ensures Swept(table, victims - (rest - {k})) ==
              if k in victims then Swept(table, victims - rest) - {k} else Swept(table, victims - rest)
    ensures victims - (rest - {k}) == if k in victims then victims - rest + {k} else victims - rest
  {}

  /** The nodes routed at some addresses. */
  ghost function NodesAt(table: Table, ips: set<Word32>): set<NodeID> {
    set ip | ip in ips && ip in table :: table[ip].nodeId
  }

  lemma NobodyGone(t: Heartbeat.Tables, table: Table, victims: set<Word32>)
    requires victims <= table.Keys
    ensures Heartbeat.Without(t, NodesAt(table, victims - table.Keys)) == t
  {
    assert victims - table.Keys == {};
  }

  lemma UnregisterAlso(t: Heartbeat.Tables, table: Table, ips: set<Word32>, k: Word32)
    requires k in table
    ensures Heartbeat.Next(Heartbeat.Without(t, NodesAt(table, ips)), Heartbeat.Unregister(table[k].nodeId)) ==
              Heartbeat.Without(t, NodesAt(table, ips + {k}))
  {
    assert NodesAt(table, ips + {k}) == NodesAt(table, ips) + {table[k].nodeId};
    WithoutBoth(t, NodesAt(table, ips), table[k].nodeId);
  }

  lemma WithoutBoth(t: Heartbeat.Tables, gone: set<NodeID>, id: NodeID)
    ensures Heartbeat.Without(Heartbeat.Without(t, gone), {id}) == Heartbeat.Without(t, gone + {id})
  {}

  lemma SweptAll(table: Table, entry: RouteEntry)
    ensures Swept(table, MovedFrom(table, entry.steamID, entry.ipAddress) - {})[entry.ipAddress := entry] ==
              Updated(table, entry)
  {}

  /** ips are the table's smallest addresses, ascending, and rest are the others. */
  ghost predicate Enumerated(table: Table, ips: seq<Word32>, rest: set<Word32>) {
    && rest <= table.Keys
    && (forall ip :: ip in ips <==> ip in table && ip !in rest)
    && (forall i, j | 0 <= i < j < |ips| :: ips[i] < ips[j])
    && (forall i, ip | 0 <= i < |ips| && ip in rest :: ips[i] < ip)
  }

  lemma EnumeratedStep(table: Table, ips: seq<Word32>, rest: set<Word32>, ip: Word32)
    requires Enumerated(table, ips, rest) && ip in rest && forall other | other in rest :: ip <= other
    ensures Enumerated(table, ips + [ip], rest - {ip})
    ensures Records(table, ips + [ip]) == Records(table, ips) + Record(table[ip])
  {
    assert (ips + [ip])[..|ips|] == ips;
  }

  class VpnBridge {
    const dir: Directory
    const negotiator: IpNegotiator
    const heartbeat: Heartbeat.HeartbeatManager
    var routingTable: Table
    var localIP: Word32
    var running: bool

    ghost function Current(): Routes
      reads this, negotiator
    {
      Routes(routingTable, negotiator.usedIPs)
    }

    ghost predicate Valid()
      reads this, negotiator
    {
      Agree(Current())
    }

    constructor (dir: Directory, negotiator: IpNegotiator, heartbeat: Heartbeat.HeartbeatManager)
      ensures Valid() && this.dir == dir && this.negotiator == negotiator && this.heartbeat == heartbeat
      ensures Current() == Routes(map[], negotiator.usedIPs) && !running && localIP == 0
    {
      this.dir, this.negotiator, this.heartbeat := dir, negotiator, heartbeat;
      routingTable, localIP, running := map[], 0, false;
    }

    /** Drops the account's other addresses, then stores the entry. */
    method UpdateRoute(nodeId: NodeID, steamId: Word64, ip: Word32, name: string)
      requires Valid()
      modifies this`routingTable, negotiator`usedIPs
      ensures Valid() && Current() == Next(old(Current()), Update(dir.Entry(nodeId, steamId, ip, name)))
      ensures ip in routingTable && routingTable[ip] == RouteEntry(steamId, ip, name, steamId == dir.self, nodeId)
    {
      var entry := dir.Entry(nodeId, steamId, ip, name);
      AgreeStep(Current(), Update(entry));
      ghost var before := routingTable;
      var rest := routingTable.Keys;
      SweptFirst(before, MovedFrom(before, steamId, ip));
      while rest != {}
        invariant rest <= old(routingTable).Keys
        invariant routingTable == Swept(before, MovedFrom(before, steamId, ip) - rest)
        invariant negotiator.usedIPs == old(negotiator.usedIPs)
        decreases rest
      {
        var k :| k in rest;
        SweptStep(before, MovedFrom(before, steamId, ip), rest, k);
        rest := rest - {k};
        if routingTable[k].steamID == steamId && k != ip {
          routingTable := routingTable - {k};
        }
      }
      routingTable := routingTable[ip := entry];
      SweptAll(before, entry);
      negotiator.MarkIPUsed(ip);
      assert negotiator.usedIPs == negotiator.View().used;
    }

    /** A lease ran out: the address leaves the table and becomes free again. */
    method OnNodeExpired(ip: Word32)
      requires Valid()
      modifies this`routingTable, negotiator`usedIPs
      ensures Valid() && Current() == Next(old(Current()), Expire(ip))
    {
      AgreeStep(Current(), Expire(ip));
      routingTable := routingTable - {ip};
      negotiator.MarkIPUnused(ip);
      assert negotiator.usedIPs == negotiator.View().used;
    }

    /** A peer left: every address of the account goes, and becomes free again; its nodes leave
        the heartbeat tables. If it is the local user, the bridge stops. */
    method OnUserLeft(steamId: Word64)
      requires Valid()
      modifies this`routingTable, this`localIP, this`running, negotiator`usedIPs, heartbeat
      ensures Valid() && Current() == Next(old(Current()), Leave(steamId))
      ensures heartbeat.Current() ==
                Heartbeat.Without(old(heartbeat.Current()), NodesAt(old(routingTable), AddressesOf(old(routingTable), steamId)))
      ensures running == (old(running) && steamId != dir.self)
      ensures localIP == if steamId == dir.self then 0 else old(localIP)
    {
      AgreeStep(Current(), Leave(steamId));
      ghost var before, nodes := routingTable, heartbeat.Current();
      var rest := routingTable.Keys;
      ghost var victims := AddressesOf(before, steamId);
      SweptFirst(before, victims);
      NobodyGone(nodes, before, victims);
      while rest != {}
        invariant rest <= before.Keys
        invariant routingTable == Swept(before, victims - rest)
        invariant negotiator.usedIPs == old(negotiator.usedIPs) - (victims - rest)
        invariant heartbeat.Current() == Heartbeat.Without(nodes, NodesAt(before, victims - rest))
        invariant running == old(running) && localIP == old(localIP)
        decreases rest
      {
        var k :| k in rest;
        SweptStep(before, victims, rest, k);
        rest := rest - {k};
        if routingTable[k].steamID == steamId {
          UnregisterAlso(nodes, before, victims - rest - {k}, k);
          heartbeat.UnregisterNode(routingTable[k].nodeId);
          negotiator.MarkIPUnused(k);
          assert negotiator.usedIPs == negotiator.View().used;
          routingTable := routingTable - {k};
        }
      }
      assert victims - rest == victims;
      if steamId == dir.self {
        running, localIP := false, 0;
      }
    }

    /** An ADDRESS_ANNOUNCE arrives: the negotiator reacts first, then the announcer
        is routed; a route update goes out if the address was not routed before. */
    method OnAddressAnnounce(ip: Word32, nodeId: NodeID, sender: Word64, peerName: string, now: int)
      returns (update: Option<Bytes>)
      requires Valid()
      modifies this`routingTable, negotiator
      ensures Valid()
      ensures var reaction := OnAnnounce(old(negotiator.View()), ip, nodeId, sender, now);
              Current() == Next(Routes(old(routingTable), reaction.node.used),
                                Update(dir.Entry(nodeId, sender, ip, peerName)))
      ensures var reaction := OnAnnounce(old(negotiator.View()), ip, nodeId, sender, now);
              && negotiator.View() == reaction.node.(used := negotiator.usedIPs)
              && negotiator.outbox == old(negotiator.outbox) + reaction.outs
      ensures update.Some? <==> ip !in old(routingTable)
      ensures update.Some? ==> exists ips ::
                Listing(routingTable, ips) && update.value == Framed(Records(routingTable, ips))
    {
      var isNewRoute := ip !in routingTable;
      negotiator.HandleAddressAnnounce(ip, nodeId, sender, now);
      assert negotiator.usedIPs == negotiator.View().used;
      UpdateRoute(nodeId, sender, ip, peerName);
      update := None;
      if isNewRoute {
        ghost var ips;
        var message;
        message, ips := BroadcastRouteUpdate();
        update := Some(message);
      }
    }

    /** The payload of a ROUTE_UPDATE, record by record. */
    method OnRouteUpdate(payload: Bytes)
      requires Valid()
      modifies this`routingTable, negotiator`usedIPs
      ensures Valid()
      ensures Current() == LearnAll(dir, negotiator.network, old(Current()), payload, |payload| / RECORD_BYTES)
    {
      var k := 0;
      while RECORD_BYTES * k + RECORD_BYTES <= |payload|
        invariant RECORD_BYTES * k <= |payload| && Valid()
        invariant Current() == LearnAll(dir, negotiator.network, old(Current()), payload, k)
        decreases |payload| - RECORD_BYTES * k
      {
        var steamId, ip := SteamIDAt(payload, k), AddressAt(payload, k);
        k := k + 1;
        if steamId == dir.self {
          continue;
        }
        if ip in routingTable {
          continue;
        }
        if negotiator.network.Contains(ip) {
          UpdateRoute(dir.idOf(steamId), steamId, ip, dir.nameOf(steamId));
        }
      }
    }

    /** A message of any kind arrives: the header is checked, and a route update learned from.
        The other kinds go to the negotiator and the heartbeat manager. */
    method OnRouteMessage(message: Bytes)
      requires Valid()
      modifies this`routingTable, negotiator`usedIPs
      ensures Valid()
      ensures Current() == Receive(dir, negotiator.network, old(Current()), message)
    {
      if |message| < HEADER_BYTES {
        return;
      }
      var length := ReadBigEndian(message[1..3]);
      if |message| < HEADER_BYTES + length {
        return;
      }
      if message[0] == ROUTE_UPDATE {
        OnRouteUpdate(message[HEADER_BYTES..HEADER_BYTES + length]);
      }
    }

    method Smallest(ips: set<Word32>) returns (least: Word32)
      requires ips != {}
      ensures least in ips && forall ip | ip in ips :: least <= ip
    {
      least :| least in ips;
      var rest := ips - {least};
      while rest != {}
        invariant rest <= ips && least in ips
        invariant forall ip | ip in ips && ip !in rest :: least <= ip
        decreases rest
      {
        var ip :| ip in rest;
        rest := rest - {ip};
        if ip < least {
          least := ip;
        }
      }
    }

    /** The message that tells the peers the whole table, in ascending address order. */
    method BroadcastRouteUpdate() returns (message: Bytes, ghost ips: seq<Word32>)
      ensures Listing(routingTable, ips) && message == Framed(Records(routingTable, ips))
      ensures exists all :: Listing(routingTable, all) && message == Framed(Records(routingTable, all))
    {
      var routeData: Bytes := [];
      ips := [];
      var rest := routingTable.Keys;
      while rest != {}
        invariant Enumerated(routingTable, ips, rest) && routeData == Records(routingTable, ips)
        decreases rest
      {
        var ip := Smallest(rest);
        EnumeratedStep(routingTable, ips, rest, ip);
        rest := rest - {ip};
        routeData := routeData + Record(routingTable[ip]);
        ips := ips + [ip];
      }
      message := Framed(routeData);
    }
  }

  /** What the negotiator does on its own never frees an address, so the table and
      the used set keep agreeing between the bridge's own operations. */
  lemma NegotiatorKeepsAgreement(s: Node, msg: Message, sender: SteamID, now: int, table: Table)
    requires Agree(Routes(table, s.used))
    ensures Agree(Routes(table, OnMessage(s, msg, sender, now).node.used))
    ensures Agree(Routes(table, OnTimeout(s, now).node.used))
    ensures Agree(Routes(table, Start(s, now).node.used))
  {}

  /** When an account leaves, exactly the nodes routed under it leave the heartbeat table. */
  lemma LeavingNodes(t: Heartbeat.Tables, table: Table, steamId: Word64, id: NodeID)
    ensures var t' := Heartbeat.Without(t, NodesAt(table, AddressesOf(table, steamId)));
            && (id in t'.nodes <==>
                 id in t.nodes && forall ip | ip in table && table[ip].steamID == steamId :: table[ip].nodeId != id)
            && (id in t'.nodes ==> t'.nodes[id] == t.nodes[id])
  {
    var ips := AddressesOf(table, steamId);
    forall ip | ip in table && table[ip].steamID == steamId ensures table[ip].nodeId in NodesAt(table, ips) {
      assert ip in ips;
    }
  }
}
