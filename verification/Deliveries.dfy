/** What each event does to the whole system, message by message: who answers whom with what, who
    restarts, and what everybody else hears of it. */
module Deliveries {
  import opened Words
  import opened NodeIdentity
  import opened Subnet
  import opened IpNegotiation
  import opened NegotiationSystem

  /** The wire once the packet is taken off it. */
  ghost function Taken(s: System, p: Packet): multiset<Packet> {
    s.wire - multiset{p}
  }

  lemma SingleEmitted(n: nat, i: nat, target: nat, msg: Message)
    requires target < n
    ensures Emitted(n, i, [Send(target, msg)]) == multiset{Packet(i, target, msg)}
  {
    assert [Send(target, msg)][1..] == [];
    assert Emitted(n, i, [Send(target, msg)]) == Packets(n, i, Send(target, msg)) + multiset{};
  }

  lemma NothingSent(s: System, p: Packet, now: int)
    requires Enabled(s, Deliver(p, now)) && React(s.nodes[p.to], Deliver(p, now)).outs == []
    ensures Apply(s, Deliver(p, now)).wire == Taken(s, p)
  {}

  lemma OneSent(s: System, p: Packet, now: int, msg: Message)
    requires Enabled(s, Deliver(p, now)) && p.from < |s.nodes|
    requires React(s.nodes[p.to], Deliver(p, now)).outs == [Send(p.from, msg)]
    ensures Apply(s, Deliver(p, now)).wire == Taken(s, p) + multiset{Packet(p.to, p.from, msg)}
  {
    SingleEmitted(|s.nodes|, p.to, p.from, msg);
  }

  lemma SameNodes(s: System, p: Packet, now: int)
    requires Enabled(s, Deliver(p, now)) && React(s.nodes[p.to], Deliver(p, now)).node == s.nodes[p.to]
    ensures Apply(s, Deliver(p, now)).nodes == s.nodes
  {}

  // ----- restarts -----

  /** Node i probes: offset k, no conflicts, the clock read `now`, an address the search finds in
      its own view; and everybody else is sent the probe for it and nothing else. */
  ghost predicate Probes(s: System, rest: multiset<Packet>, s': System, i: nat, k: Word32, now: int) {
    && i < |s.nodes| == |s'.nodes|
    && (forall j | 0 <= j < |s.nodes| && j != i :: s'.nodes[j] == s.nodes[j])
    && (var a, b := s.nodes[i], s'.nodes[i];
        && b.phase == Probing && b.offset == k && b.conflicts == [] && b.probeStart == now
        && b.id == a.id && b.net == a.net && b.used == a.used && b.localIP == a.localIP
        && b.candidate == NextAvailable(a.net, a.used, GenerateCandidate(a.net, a.id, k))
        && forall p :: p in s'.wire <==>
             p in rest || (p.from == i && p.to < |s.nodes| && p.to != i && p.msg == ProbeRequest(b.candidate, a.id)))
  }

  lemma StartProbes(s: System, e: Event, rest: multiset<Packet>, k: Word32, now: int)
    requires Enabled(s, e)
    requires React(s.nodes[Actor(e)], e) == Start(s.nodes[Actor(e)].(offset := k), now)
    requires rest == if e.Deliver? then Taken(s, e.p) else s.wire
    ensures Probes(s, rest, Apply(s, e), Actor(e), k, now)
  {
    var i, a := Actor(e), s.nodes[Actor(e)];
    var out := Broadcast(ProbeRequest(Apply(s, e).nodes[i].candidate, a.id));
    assert React(a, e).outs == [out] && [out][1..] == [];
    forall p ensures p in Emitted(|s.nodes|, i, [out]) <==> Carries(|s.nodes|, i, out, p) {
      PacketsCarry(|s.nodes|, i, out, p);
    }
  }

  lemma ReselectProbes(s: System, e: Event, rest: multiset<Packet>, now: int)
    requires Enabled(s, e) && React(s.nodes[Actor(e)], e) == Reselect(s.nodes[Actor(e)], now)
    requires rest == if e.Deliver? then Taken(s, e.p) else s.wire
    ensures Probes(s, rest, Apply(s, e), Actor(e), (s.nodes[Actor(e)].offset + 1) % 0x1_0000_0000, now)
  {
    StartProbes(s, e, rest, (s.nodes[Actor(e)].offset + 1) % 0x1_0000_0000, now);
  }

  /** An idle node that begins probes its candidate for the offset it has. */
  lemma BeginProbes(s: System, i: nat, now: int)
    requires i < |s.nodes| && s.nodes[i].phase == Idle
    ensures Probes(s, s.wire, Apply(s, Begin(i, now)), i, s.nodes[i].offset, now)
  {
    assert s.nodes[i].(offset := s.nodes[i].offset) == s.nodes[i];
    StartProbes(s, Begin(i, now), s.wire, s.nodes[i].offset, now);
  }

  // ----- the four messages -----

  /** A node answers a probe for an address if it holds it, or probes it and is stronger. */
  ghost predicate Answers(a: Node, ip: Word32, asker: NodeID) {
    (a.phase == Stable && a.localIP == ip) || (a.phase == Probing && a.candidate == ip && HasPriority(a.id, asker))
  }

  lemma ProbeAnswered(s: System, p: Packet, now: int)
    requires Enabled(s, Deliver(p, now)) && p.msg.ProbeRequest? && p.from < |s.nodes|
    requires Answers(s.nodes[p.to], p.msg.ip, p.msg.nodeId)
    ensures Apply(s, Deliver(p, now)) ==
              System(s.nodes,
                     Taken(s, p) + multiset{Packet(p.to, p.from, ProbeResponse(p.msg.ip, s.nodes[p.to].id, now))})
  {
    SameNodes(s, p, now);
    OneSent(s, p, now, ProbeResponse(p.msg.ip, s.nodes[p.to].id, now));
  }

  lemma ProbeIgnored(s: System, p: Packet, now: int)
    requires Enabled(s, Deliver(p, now)) && p.msg.ProbeRequest?
    requires var a := s.nodes[p.to];
             !(a.phase == Stable && a.localIP == p.msg.ip) && !(a.phase == Probing && a.candidate == p.msg.ip)
    ensures Apply(s, Deliver(p, now)) == System(s.nodes, Taken(s, p))
  {
    SameNodes(s, p, now);
    NothingSent(s, p, now);
  }

  /** A probe for an address is answered by the node that holds it and by a stronger prober of it,
      to the asker and to nobody else, with the answerer's clock; a prober of it that is not
      stronger restarts; any other node ignores it. */
  lemma ProbeRequestHeard(s: System, p: Packet, now: int)
    requires Enabled(s, Deliver(p, now)) && p.msg.ProbeRequest? && p.from < |s.nodes|
    ensures var a, s' := s.nodes[p.to], Apply(s, Deliver(p, now));
            if Answers(a, p.msg.ip, p.msg.nodeId) then
              s' == System(s.nodes, Taken(s, p) + multiset{Packet(p.to, p.from, ProbeResponse(p.msg.ip, a.id, now))})
            else if a.phase == Probing && a.candidate == p.msg.ip then
              Probes(s, Taken(s, p), s', p.to, (a.offset + 1) % 0x1_0000_0000, now)
            else
              s' == System(s.nodes, Taken(s, p))
  {
    var a := s.nodes[p.to];
    if Answers(a, p.msg.ip, p.msg.nodeId) {
      ProbeAnswered(s, p, now);
    } else if a.phase == Probing && a.candidate == p.msg.ip {
      ReselectProbes(s, Deliver(p, now), Taken(s, p), now);
    } else {
      ProbeIgnored(s, p, now);
    }
  }

  /** A probe response is stored as a conflict, after those before it, by a prober of the address;
      any other node ignores it. */
  lemma ProbeResponseHeard(s: System, p: Packet, now: int)
    requires Enabled(s, Deliver(p, now)) && p.msg.ProbeResponse?
    ensures var a, s' := s.nodes[p.to], Apply(s, Deliver(p, now));
            s' == System(
              if a.phase == Probing && a.candidate == p.msg.ip
              then s.nodes[p.to := a.(conflicts := a.conflicts + [Conflict(p.msg.nodeId, p.msg.lastHeartbeatMs, p.from)])]
              else s.nodes,
              Taken(s, p))
  {
    NothingSent(s, p, now);
    if !(s.nodes[p.to].phase == Probing && s.nodes[p.to].candidate == p.msg.ip) {
      SameNodes(s, p, now);
    }
  }

  /** An announcement of the address a node holds makes it restart, or, if it is the stronger one,
      send the announcer a release; any other announcement marks the address used. */
  lemma AnnouncementHeard(s: System, p: Packet, now: int)
    requires Enabled(s, Deliver(p, now)) && p.msg.AddressAnnounce? && p.from < |s.nodes|
    ensures var a, s' := s.nodes[p.to], Apply(s, Deliver(p, now));
            if !(a.phase == Stable && a.localIP == p.msg.ip) then
              s' == System(s.nodes[p.to := a.(used := a.used + {p.msg.ip})], Taken(s, p))
            else if HasPriority(a.id, p.msg.nodeId) then
              s' == System(s.nodes, Taken(s, p) + multiset{Packet(p.to, p.from, ForcedRelease(p.msg.ip, a.id))})
            else
              Probes(s, Taken(s, p), s', p.to, (a.offset + 1) % 0x1_0000_0000, now)
  {
    var a := s.nodes[p.to];
    if !(a.phase == Stable && a.localIP == p.msg.ip) {
      NothingSent(s, p, now);
    } else if HasPriority(a.id, p.msg.nodeId) {
      AnnouncerReleased(s, p, now);
    } else {
      ReselectProbes(s, Deliver(p, now), Taken(s, p), now);
    }
  }

  lemma AnnouncerReleased(s: System, p: Packet, now: int)
    requires Enabled(s, Deliver(p, now)) && p.msg.AddressAnnounce? && p.from < |s.nodes|
    requires var a := s.nodes[p.to]; a.phase == Stable && a.localIP == p.msg.ip && HasPriority(a.id, p.msg.nodeId)
    ensures Apply(s, Deliver(p, now)) ==
              System(s.nodes, Taken(s, p) + multiset{Packet(p.to, p.from, ForcedRelease(p.msg.ip, s.nodes[p.to].id))})
  {
    SameNodes(s, p, now);
    OneSent(s, p, now, ForcedRelease(p.msg.ip, s.nodes[p.to].id));
  }

  /** A release moves a holder or prober of the address that is not stronger than the winner named. */
  ghost predicate Yields(a: Node, ip: Word32, winner: NodeID) {
    && ((a.phase == Stable && a.localIP == ip) || (a.phase == Probing && a.candidate == ip))
    && !HasPriority(a.id, winner)
  }

  lemma ReleaseIgnored(s: System, p: Packet, now: int)
    requires Enabled(s, Deliver(p, now)) && p.msg.ForcedRelease?
    requires !Yields(s.nodes[p.to], p.msg.ip, p.msg.nodeId)
    ensures Apply(s, Deliver(p, now)) == System(s.nodes, Taken(s, p))
  {
    SameNodes(s, p, now);
    NothingSent(s, p, now);
  }

  /** That node restarts; any other node ignores the release. */
  lemma ReleaseHeard(s: System, p: Packet, now: int)
    requires Enabled(s, Deliver(p, now)) && p.msg.ForcedRelease?
    ensures var a, s' := s.nodes[p.to], Apply(s, Deliver(p, now));
            if Yields(a, p.msg.ip, p.msg.nodeId)
            then Probes(s, Taken(s, p), s', p.to, (a.offset + 1) % 0x1_0000_0000, now)
            else s' == System(s.nodes, Taken(s, p))
  {
    if Yields(s.nodes[p.to], p.msg.ip, p.msg.nodeId) {
      ReselectProbes(s, Deliver(p, now), Taken(s, p), now);
    } else {
      ReleaseIgnored(s, p, now);
    }
  }

  // ----- timeouts and announcements -----

  /** A conflict is disregarded when its heartbeat is at least 180 seconds old by the node's own
      clock. */
  ghost predicate Counts(c: Conflict, now: int) {
    now - c.lastHeartbeatMs < 180_000
  }

  /** What a claim sends: a release to the sender of each conflict that counts, and the
      announcement to everybody else. */
  ghost predicate SentByClaim(n: nat, i: nat, a: Node, now: int, p: Packet) {
    && p.from == i && p.to < n
    && (|| (p.msg == ForcedRelease(a.candidate, a.id)
            && exists c :: c in a.conflicts && Counts(c, now) && c.sender == p.to)
        || (p.msg == AddressAnnounce(a.candidate, a.id) && p.to != i))
  }

  /** Before 500 ms have passed, and outside a probe, nothing happens. After that the node claims
      its candidate if it is stronger than the sender of every conflict that counts, and restarts
      otherwise. */
  lemma TimeoutElapses(s: System, i: nat, now: int)
    requires i < |s.nodes|
    ensures var a, s' := s.nodes[i], Apply(s, Timeout(i, now));
            if !(a.phase == Probing && now - a.probeStart >= 500) then s' == s
            else if exists c :: c in a.conflicts && Counts(c, now) && !HasPriority(a.id, c.nodeId) then
              Probes(s, s.wire, s', i, (a.offset + 1) % 0x1_0000_0000, now)
            else
              && s'.nodes == s.nodes[i := a.(phase := Stable, localIP := a.candidate, conflicts := [])]
              && forall p :: p in s'.wire <==> p in s.wire || SentByClaim(|s.nodes|, i, a, now, p)
  {
    var a, e := s.nodes[i], Timeout(i, now);
    if !(a.phase == Probing && now - a.probeStart >= 500) {
      assert s.nodes[i := a] == s.nodes;
    } else if exists c :: c in a.conflicts && Counts(c, now) && !HasPriority(a.id, c.nodeId) {
      ReselectProbes(s, e, s.wire, now);
    } else {
      forall p ensures p in Apply(s, e).wire <==> p in s.wire || SentByClaim(|s.nodes|, i, a, now, p) {
        ClaimSends(s, i, now, p);
      }
    }
  }

  lemma ClaimSends(s: System, i: nat, now: int, p: Packet)
    requires i < |s.nodes| && TimedOut(s.nodes[i], now) && CanClaim(s.nodes[i].id, s.nodes[i].conflicts, now)
    ensures p in Apply(s, Timeout(i, now)).wire <==> p in s.wire || SentByClaim(|s.nodes|, i, s.nodes[i], now, p)
  {
    var n, a, outs := |s.nodes|, s.nodes[i], React(s.nodes[i], Timeout(i, now)).outs;
    EmittedCarries(n, i, outs, p);
    var announcement := Broadcast(AddressAnnounce(a.candidate, a.id));
    var release := Send(p.to, ForcedRelease(a.candidate, a.id));
    ReleasesExactly(a.candidate, a.id, a.conflicts, now, release);
    if k :| 0 <= k < |outs| && Carries(n, i, outs[k], p) {
      if outs[k] != announcement {
        ReleasesExactly(a.candidate, a.id, a.conflicts, now, outs[k]);
        assert outs[k] == release;
      }
    }
    if SentByClaim(n, i, a, now, p) {
      var out := if p.msg.ForcedRelease? then release else announcement;
      assert out in outs;
      var k :| 0 <= k < |outs| && outs[k] == out;
      assert Carries(n, i, outs[k], p);
    }
  }

  /** Announcing again tells everybody else, and changes no node. */
  lemma AnnouncesAgain(s: System, i: nat)
    requires i < |s.nodes| && s.nodes[i].phase == Stable
    ensures var s' := Apply(s, Reannounce(i));
            && s'.nodes == s.nodes
            && forall p :: p in s'.wire <==>
                 p in s.wire || (p.from == i && p.to < |s.nodes| && p.to != i
                                 && p.msg == AddressAnnounce(s.nodes[i].localIP, s.nodes[i].id))
  {
    var n, a, s' := |s.nodes|, s.nodes[i], Apply(s, Reannounce(i));
    assert s.nodes[i := a] == s.nodes;
    var out := Broadcast(AddressAnnounce(a.localIP, a.id));
    forall p ensures p in s'.wire <==> p in s.wire || Carries(n, i, out, p) {
      BroadcastCarries(n, i, out, p);
    }
  }

  lemma BroadcastCarries(n: nat, i: nat, out: Outgoing, p: Packet)
    ensures p in Emitted(n, i, [out]) <==> Carries(n, i, out, p)
  {
    assert [out][1..] == [];
    PacketsCarry(n, i, out, p);
  }

  /** A new peer is told the address a node holds, if there is one. No node changes. */
  lemma AnnouncesToPeer(s: System, i: nat, peer: nat)
    requires i < |s.nodes| && peer < |s.nodes| && peer != i
    ensures var a := s.nodes[i];
            Apply(s, AnnounceTo(i, peer)) ==
              if a.phase == Stable && a.localIP != 0
              then System(s.nodes, s.wire + multiset{Packet(i, peer, AddressAnnounce(a.localIP, a.id))})
              else s
  {
    var a := s.nodes[i];
    assert s.nodes[i := a] == s.nodes;
    if a.phase == Stable && a.localIP != 0 {
      SingleEmitted(|s.nodes|, i, peer, AddressAnnounce(a.localIP, a.id));
    }
  }

  /** The bridge marks addresses used and unused; nothing is sent. */
  lemma MarksOnly(s: System, i: nat, ip: Word32)
    requires i < |s.nodes|
    ensures var a := s.nodes[i];
            && Apply(s, MarkUsed(i, ip)) == System(s.nodes[i := a.(used := a.used + {ip})], s.wire)
            && Apply(s, MarkUnused(i, ip)) == System(s.nodes[i := a.(used := a.used - {ip})], s.wire)
  {}

  /** A claim sends one release for each conflict that counts, in the order they came in. */
  lemma ReleasesInOrder(ip: Word32, id: NodeID, conflicts: seq<Conflict>, c: Conflict, now: int)
    ensures Releases(ip, id, [], now) == []
    ensures Releases(ip, id, conflicts + [c], now) ==
              Releases(ip, id, conflicts, now) + if Counts(c, now) then [Send(c.sender, ForcedRelease(ip, id))] else []
  {
    assert (conflicts + [c])[..|conflicts|] == conflicts;
  }
}
