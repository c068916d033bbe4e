/** One node of the leaderless address negotiation. The class follows the handlers
    of the source; each method is tied to a function on `Node` values, which the
    system of nodes in NegotiationSystem is built from.

    Every handler takes one clock reading, in milliseconds, as its argument. Clocks
    are unconstrained integers: nothing relates the readings of two nodes. */
module IpNegotiation {
  import opened Words
  import opened NodeIdentity
  import opened Subnet

  const PROBE_TIMEOUT_MS: int := 500
  const HEARTBEAT_EXPIRY_MS: int := 180_000

  type SteamID = nat

  datatype Phase = Idle | Probing | Stable

  datatype Conflict = Conflict(nodeId: NodeID, lastHeartbeatMs: int, sender: SteamID)

  datatype Message =
    | ProbeRequest(ip: Word32, nodeId: NodeID)
    | ProbeResponse(ip: Word32, nodeId: NodeID, lastHeartbeatMs: int)
    | AddressAnnounce(ip: Word32, nodeId: NodeID)
    | ForcedRelease(ip: Word32, nodeId: NodeID)

  /** What is handed to the two send callbacks. */
  datatype Outgoing =
    | Send(target: SteamID, msg: Message)
    | Broadcast(msg: Message)

  datatype Node = Node(
    id: NodeID, net: Network, phase: Phase, candidate: Word32, offset: Word32, localIP: Word32,
    probeStart: int, conflicts: seq<Conflict>, used: set<Word32>)

  datatype Reaction = Reaction(node: Node, outs: seq<Outgoing>)

  // ----- the handlers as functions -----

  function Start(s: Node, now: int): Reaction {
    var c := NextAvailable(s.net, s.used, GenerateCandidate(s.net, s.id, s.offset));
    Reaction(s.(conflicts := [], candidate := c, phase := Probing, probeStart := now),
             [Broadcast(ProbeRequest(c, s.id))])
  }

  function Reselect(s: Node, now: int): Reaction {
    Start(s.(offset := Increment32(s.offset)), now)
  }

  predicate Stale(c: Conflict, now: int) {
    now - c.lastHeartbeatMs >= HEARTBEAT_EXPIRY_MS
  }

  /** A claim succeeds when every conflict is stale or comes from a weaker node. */
  ghost predicate CanClaim(id: NodeID, conflicts: seq<Conflict>, now: int) {
    forall c | c in conflicts :: Stale(c, now) || HasPriority(id, c.nodeId)
  }

  /** Releases go to the senders of the conflicts that are not stale, in order. */
  function Releases(ip: Word32, id: NodeID, conflicts: seq<Conflict>, now: int): seq<Outgoing> {
    if conflicts == [] then []
    else
      var rest := Releases(ip, id, conflicts[..|conflicts| - 1], now);
      var c := conflicts[|conflicts| - 1];
      if Stale(c, now) then rest else rest + [Send(c.sender, ForcedRelease(ip, id))]
  }

  /** Every sender of a conflict that is not stale gets a release, and nobody else does. */
  lemma {:induction false} ReleasesExactly(ip: Word32, id: NodeID, conflicts: seq<Conflict>, now: int, out: Outgoing)
    ensures out in Releases(ip, id, conflicts, now) <==>
            exists c :: c in conflicts && !Stale(c, now) && out == Send(c.sender, ForcedRelease(ip, id))
  {
    if conflicts != [] {
      var n := |conflicts| - 1;
      ReleasesExactly(ip, id, conflicts[..n], now, out);
      assert conflicts == conflicts[..n] + [conflicts[n]];
    }
  }

  ghost predicate TimedOut(s: Node, now: int) {
    s.phase.Probing? && now - s.probeStart >= PROBE_TIMEOUT_MS
  }

  ghost function OnTimeout(s: Node, now: int): Reaction {
    if !TimedOut(s, now) then Reaction(s, [])
    else if CanClaim(s.id, s.conflicts, now) then
      Reaction(s.(conflicts := [], phase := Stable, localIP := s.candidate),
               Releases(s.candidate, s.id, s.conflicts, now)
               + [Broadcast(AddressAnnounce(s.candidate, s.id))])
    else
      Reselect(s, now)
  }

  ghost function OnProbeRequest(s: Node, ip: Word32, asker: NodeID, sender: SteamID, now: int): Reaction {
    if s.phase.Stable? && ip == s.localIP then
      Reaction(s, [Send(sender, ProbeResponse(ip, s.id, now))])
    else if s.phase.Probing? && ip == s.candidate then
      if HasPriority(s.id, asker) then Reaction(s, [Send(sender, ProbeResponse(ip, s.id, now))])
      else Reselect(s, now)
    else
      Reaction(s, [])
  }

  function OnProbeResponse(s: Node, ip: Word32, responder: NodeID, heartbeatMs: int, sender: SteamID): Reaction {
    if s.phase.Probing? && ip == s.candidate then
      Reaction(s.(conflicts := s.conflicts + [Conflict(responder, heartbeatMs, sender)]), [])
    else
      Reaction(s, [])
  }

  ghost function OnAnnounce(s: Node, ip: Word32, announcer: NodeID, sender: SteamID, now: int): Reaction {
    if ip == s.localIP && s.phase.Stable? then
      if HasPriority(s.id, announcer) then Reaction(s, [Send(sender, ForcedRelease(ip, s.id))])
      else Reselect(s, now)
    else
      Reaction(s.(used := s.used + {ip}), [])
  }

  ghost function OnRelease(s: Node, ip: Word32, winner: NodeID, now: int): Reaction {
    if (if s.phase.Stable? then ip == s.localIP else s.phase.Probing? && ip == s.candidate)
       && !HasPriority(s.id, winner)
    then Reselect(s, now)
    else Reaction(s, [])
  }

  ghost function OnMessage(s: Node, msg: Message, sender: SteamID, now: int): Reaction {
    match msg
    case ProbeRequest(ip, id) => OnProbeRequest(s, ip, id, sender, now)
    case ProbeResponse(ip, id, t) => OnProbeResponse(s, ip, id, t, sender)
    case AddressAnnounce(ip, id) => OnAnnounce(s, ip, id, sender, now)
    case ForcedRelease(ip, id) => OnRelease(s, ip, id, now)
  }

  /** What announcing to everybody, or to one peer, hands to the callbacks. */
  function Announcement(s: Node, target: SteamID): seq<Outgoing> {
    if s.phase.Stable? && s.localIP != 0 then [Send(target, AddressAnnounce(s.localIP, s.id))] else []
  }

  // ----- the object -----

  class IpNegotiator {
    const localNodeId: NodeID
    const network: Network
    var localIP: Word32
    var state: Phase
    var candidateIP: Word32
    var probeOffset: Word32
    var probeStartTime: int
    var collectedConflicts: seq<Conflict>
    var usedIPs: set<Word32>
    /** Everything handed to the send and broadcast callbacks so far. */
    var outbox: seq<Outgoing>

    ghost function View(): Node
      reads this
    {
      Node(localNodeId, network, state, candidateIP, probeOffset, localIP,
           probeStartTime, collectedConflicts, usedIPs)
    }

    ghost predicate Became(before: Node, sent: seq<Outgoing>, r: Reaction)
      reads this
    {
      View() == r.node && r.node.id == before.id && outbox == sent + r.outs
    }

    constructor (id: NodeID, net: Network)
      ensures View() == Node(id, net, Idle, 0, 0, 0, 0, [], {}) && outbox == []
    {
      localNodeId, network := id, net;
      localIP, state, candidateIP, probeOffset, probeStartTime := 0, Idle, 0, 0, 0;
      collectedConflicts, usedIPs, outbox := [], {}, [];
    }

    method Reset()
      modifies this
      ensures View() == Node(localNodeId, network, Idle, 0, 0, 0, old(probeStartTime), [], {})
      ensures outbox == old(outbox)
    {
      usedIPs := {};
      collectedConflicts := [];
      state, candidateIP, probeOffset, localIP := Idle, 0, 0, 0;
    }

    method FindNextAvailableIP(startIP: Word32) returns (ip: Word32)
      ensures ip == NextAvailable(network, usedIPs, startIP)
    {
      var hostMask := network.HostMask();
      var maxHosts := network.MaxHosts();
      var hostPart := network.HostPart(startIP);
      if hostPart == 0 || hostPart >= hostMask {
        hostPart := 1;
      }
      ip := network.Address(hostPart);
      var attempts := 0;
      while ip in usedIPs && attempts < maxHosts
        invariant 0 <= attempts <= maxHosts && ip == network.Address(hostPart)
        invariant Scan(network, usedIPs, hostPart, attempts) == NextAvailable(network, usedIPs, startIP)
        decreases maxHosts - attempts
      {
        hostPart := NextHost(network, hostPart);
        ip := network.Address(hostPart);
        attempts := attempts + 1;
      }
    }

    method StartNegotiation(now: int)
      modifies this
      ensures Became(old(View()), old(outbox), Start(old(View()), now))
    {
      collectedConflicts := [];
      candidateIP := GenerateCandidate(network, localNodeId, probeOffset);
      candidateIP := FindNextAvailableIP(candidateIP);
      state := Probing;
      outbox := outbox + [Broadcast(ProbeRequest(candidateIP, localNodeId))];
      probeStartTime := now;
    }

    /** The conflict loop of the timeout: decides the claim and collects the releases. */
    method Arbitrate(conflicts: seq<Conflict>, now: int) returns (canClaim: bool, releases: seq<Outgoing>)
      ensures canClaim == CanClaim(localNodeId, conflicts, now)
      ensures canClaim ==> releases == Releases(candidateIP, localNodeId, conflicts, now)
    {
      releases := [];
      for i := 0 to |conflicts|
        invariant CanClaim(localNodeId, conflicts[..i], now)
        invariant releases == Releases(candidateIP, localNodeId, conflicts[..i], now)
      {
        var c := conflicts[i];
        assert conflicts[..i + 1] == conflicts[..i] + [c];
        if !Stale(c, now) {
          var stronger := CheckPriority(localNodeId, c.nodeId);
          if !stronger {
            return false, releases;
          }
          releases := releases + [Send(c.sender, ForcedRelease(candidateIP, localNodeId))];
        }
      }
      assert conflicts[..|conflicts|] == conflicts;
      return true, releases;
    }

    method CheckTimeout(now: int)
      modifies this
      ensures Became(old(View()), old(outbox), OnTimeout(old(View()), now))
    {
      if state != Probing || now - probeStartTime < PROBE_TIMEOUT_MS {
        return;
      }
      var conflicts := collectedConflicts;
      collectedConflicts := [];
      var canClaim, releases := Arbitrate(conflicts, now);
      if canClaim {
        outbox := outbox + releases;
        state := Stable;
        localIP := candidateIP;
        SendAddressAnnounce();
      } else {
        probeOffset := Increment32(probeOffset);
        StartNegotiation(now);
      }
    }

    method HandleProbeRequest(requestedIP: Word32, nodeId: NodeID, sender: SteamID, now: int)
      modifies this
      ensures Became(old(View()), old(outbox), OnProbeRequest(old(View()), requestedIP, nodeId, sender, now))
    {
      var shouldRespond := false;
      if state == Stable && requestedIP == localIP {
        shouldRespond := true;
      } else if state == Probing && requestedIP == candidateIP {
        var stronger := CheckPriority(localNodeId, nodeId);
        if stronger {
          shouldRespond := true;
        } else {
          probeOffset := Increment32(probeOffset);
          StartNegotiation(now);
          return;
        }
      }
      if shouldRespond {
        outbox := outbox + [Send(sender, ProbeResponse(requestedIP, localNodeId, now))];
      }
    }

    method HandleProbeResponse(conflictIP: Word32, nodeId: NodeID, heartbeatMs: int, sender: SteamID)
      modifies this
      ensures Became(old(View()), old(outbox), OnProbeResponse(old(View()), conflictIP, nodeId, heartbeatMs, sender))
    {
      if state != Probing {
        return;
      }
      if conflictIP != candidateIP {
        return;
      }
      collectedConflicts := collectedConflicts + [Conflict(nodeId, heartbeatMs, sender)];
    }

    method HandleAddressAnnounce(announcedIP: Word32, nodeId: NodeID, peer: SteamID, now: int)
      modifies this
      ensures Became(old(View()), old(outbox), OnAnnounce(old(View()), announcedIP, nodeId, peer, now))
    {
      if announcedIP == localIP && state == Stable {
        var stronger := CheckPriority(localNodeId, nodeId);
        if !stronger {
          probeOffset := Increment32(probeOffset);
          StartNegotiation(now);
          return;
        }
        outbox := outbox + [Send(peer, ForcedRelease(announcedIP, localNodeId))];
        return;
      }
      MarkIPUsed(announcedIP);
    }

    method HandleForcedRelease(releasedIP: Word32, winner: NodeID, now: int)
      modifies this
      ensures Became(old(View()), old(outbox), OnRelease(old(View()), releasedIP, winner, now))
    {
      var shouldRelease := false;
      var stronger := CheckPriority(localNodeId, winner);
      if releasedIP == localIP && state == Stable {
        if !stronger {
          shouldRelease := true;
        }
      } else if releasedIP == candidateIP && state == Probing {
        if !stronger {
          shouldRelease := true;
        }
      }
      if shouldRelease {
        probeOffset := Increment32(probeOffset);
        state := Idle;
        StartNegotiation(now);
      }
    }

    method SendAddressAnnounce()
      modifies this
      ensures Became(old(View()), old(outbox),
                     Reaction(old(View()), [Broadcast(AddressAnnounce(old(localIP), localNodeId))]))
    {
      outbox := outbox + [Broadcast(AddressAnnounce(localIP, localNodeId))];
    }

    method SendAddressAnnounceTo(target: SteamID)
      modifies this
      ensures Became(old(View()), old(outbox), Reaction(old(View()), Announcement(old(View()), target)))
    {
      if state != Stable || localIP == 0 {
        return;
      }
      outbox := outbox + [Send(target, AddressAnnounce(localIP, localNodeId))];
    }

    method MarkIPUsed(ip: Word32)
      modifies this`usedIPs
      ensures Became(old(View()), old(outbox), Reaction(old(View()).(used := old(usedIPs) + {ip}), []))
    {
      usedIPs := usedIPs + {ip};
    }

    method MarkIPUnused(ip: Word32)
      modifies this`usedIPs
      ensures Became(old(View()), old(outbox), Reaction(old(View()).(used := old(usedIPs) - {ip}), []))
    {
      usedIPs := usedIPs - {ip};
    }
  }
}
