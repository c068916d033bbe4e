/** Any number of nodes negotiating over a network that delivers every message once,
    in any order. Membership is fixed, every node knows every other as a peer, and
    a handler runs to its end before the next event. Clock readings are arbitrary,
    so a probe may time out whenever its reading says so, and whether a conflict
    counts as stale is up to two unrelated clocks. */
module NegotiationSystem {
  import opened Words
  import opened NodeIdentity
  import opened Subnet
  import opened IpNegotiation

  /** A message in flight; nodes are numbered, and the number stands for the Steam ID. */
  datatype Packet = Packet(from: nat, to: nat, msg: Message)

  datatype System = System(nodes: seq<Node>, wire: multiset<Packet>)

  datatype Event =
    | Begin(i: nat, now: int)
    | Timeout(i: nat, now: int)
    | Deliver(p: Packet, now: int)
    | Reannounce(i: nat)
    | AnnounceTo(i: nat, peer: nat)
    | MarkUsed(i: nat, ip: Word32)
    | MarkUnused(i: nat, ip: Word32)

  function Actor(e: Event): nat {
    if e.Deliver? then e.p.to else e.i
  }

  ghost predicate Enabled(s: System, e: Event) {
    && Actor(e) < |s.nodes|
    && (e.Begin? ==> s.nodes[e.i].phase.Idle?)
    && (e.Deliver? ==> e.p in s.wire)
    && (e.Reannounce? ==> s.nodes[e.i].phase.Stable?)
    && (e.AnnounceTo? ==> e.peer != e.i)
  }

  ghost function React(a: Node, e: Event): Reaction {
    match e
    case Begin(_, now) => Start(a, now)
    case Timeout(_, now) => OnTimeout(a, now)
    case Deliver(p, now) => OnMessage(a, p.msg, p.from, now)
    case Reannounce(_) => Reaction(a, [Broadcast(AddressAnnounce(a.localIP, a.id))])
    case AnnounceTo(_, peer) => Reaction(a, Announcement(a, peer))
    case MarkUsed(_, ip) => Reaction(a.(used := a.used + {ip}), [])
    case MarkUnused(_, ip) => Reaction(a.(used := a.used - {ip}), [])
  }

  /** The packets one callback invocation puts on the wire. */
  ghost function Packets(n: nat, from: nat, out: Outgoing): multiset<Packet> {
    match out
    case Send(target, msg) => if target < n then multiset{Packet(from, target, msg)} else multiset{}
    case Broadcast(msg) => multiset(set j: nat | j < n && j != from :: Packet(from, j, msg))
  }

  ghost function Emitted(n: nat, from: nat, outs: seq<Outgoing>): multiset<Packet> {
    if outs == [] then multiset{}
    else Packets(n, from, outs[0]) + Emitted(n, from, outs[1..])
  }

  ghost function Apply(s: System, e: Event): System
    requires Enabled(s, e)
  {
    var i := Actor(e);
    var r := React(s.nodes[i], e);
    var rest := if e.Deliver? then s.wire - multiset{e.p} else s.wire;
    System(s.nodes[i := r.node], rest + Emitted(|s.nodes|, i, r.outs))
  }

  ghost predicate Step(s: System, s': System) {
    exists e: Event :: Enabled(s, e) && s' == Apply(s, e)
  }

  ghost predicate Run(trace: seq<System>) {
    && trace != []
    && forall k | 0 <= k < |trace| - 1 :: Step(trace[k], trace[k + 1])
  }

  /** Nobody has started, nothing is in flight, and the identities differ. */
  ghost predicate Initial(s: System) {
    && s.wire == multiset{}
    && (forall i, j | 0 <= i < |s.nodes| && 0 <= j < |s.nodes| && i != j :: s.nodes[i].id != s.nodes[j].id)
    && (forall i | 0 <= i < |s.nodes| ::
          s.nodes[i].phase.Idle? && s.nodes[i].offset == 0 && s.nodes[i].conflicts == [])
  }

  ghost predicate Stronger(s: System, i: nat, j: nat)
    requires i < |s.nodes| && j < |s.nodes|
  {
    HasPriority(s.nodes[i].id, s.nodes[j].id)
  }

  /** The address a node stands for: the claimed one, or the one it probes. */
  function Held(a: Node): Word32 {
    if a.phase.Stable? then a.localIP else a.candidate
  }

  // ----- what is put on the wire -----

  ghost predicate Carries(n: nat, from: nat, out: Outgoing, p: Packet) {
    && p.from == from && p.to < n && p.msg == out.msg
    && (if out.Send? then p.to == out.target else p.to != from)
  }

  lemma PacketsCarry(n: nat, from: nat, out: Outgoing, p: Packet)
    ensures p in Packets(n, from, out) <==> Carries(n, from, out, p)
  {
    if out.Broadcast? {
      assert p in Packets(n, from, out) <==> p in (set j: nat | j < n && j != from :: Packet(from, j, out.msg));
    }
  }

  lemma {:induction false} EmittedCarries(n: nat, from: nat, outs: seq<Outgoing>, p: Packet)
    ensures p in Emitted(n, from, outs) <==> exists k :: 0 <= k < |outs| && Carries(n, from, outs[k], p)
  {
    if outs != [] {
      PacketsCarry(n, from, outs[0], p);
      EmittedCarries(n, from, outs[1..], p);
      if p in Emitted(n, from, outs[1..]) {
        var k :| 0 <= k < |outs[1..]| && Carries(n, from, outs[1..][k], p);
        assert Carries(n, from, outs[k + 1], p);
      }
      if k :| 0 <= k < |outs| && Carries(n, from, outs[k], p) {
        if k > 0 {
          assert Carries(n, from, outs[1..][k - 1], p);
        }
      }
    }
  }

  lemma WireAfter(s: System, e: Event, p: Packet)
    requires Enabled(s, e)
    ensures var r := React(s.nodes[Actor(e)], e);
            (exists k :: 0 <= k < |r.outs| && Carries(|s.nodes|, Actor(e), r.outs[k], p))
            ==> p in Apply(s, e).wire
    ensures p in s.wire && !(e.Deliver? && e.p == p) ==> p in Apply(s, e).wire
    ensures var r := React(s.nodes[Actor(e)], e);
            p in Apply(s, e).wire ==>
              p in s.wire || exists k :: 0 <= k < |r.outs| && Carries(|s.nodes|, Actor(e), r.outs[k], p)
  {
    EmittedCarries(|s.nodes|, Actor(e), React(s.nodes[Actor(e)], e).outs, p);
  }

  // ----- what one handler can do -----

  ghost predicate NamesOwn(a: Node, b: Node, out: Outgoing) {
    && out.msg.nodeId == a.id
    && out.msg.ip == Held(b)
    && (out.msg.AddressAnnounce? || out.msg.ForcedRelease? ==> b.phase.Stable?)
  }

  lemma {:induction false} ReleasesNameOwn(a: Node, b: Node, now: int, k: nat)
    requires b.phase.Stable? && b.localIP == a.candidate
    requires k < |Releases(a.candidate, a.id, a.conflicts, now)|
    ensures var out := Releases(a.candidate, a.id, a.conflicts, now)[k];
            NamesOwn(a, b, out) && out.Send? && exists c :: c in a.conflicts && c.sender == out.target
    decreases |a.conflicts|
  {
    var prefix := a.conflicts[..|a.conflicts| - 1];
    if k < |Releases(a.candidate, a.id, prefix, now)| {
      ReleasesNameOwn(a.(conflicts := prefix), b, now, k);
    } else {
      assert a.conflicts[|a.conflicts| - 1] in a.conflicts;
    }
  }

  ghost predicate Kept(a: Node, b: Node) {
    b.phase == a.phase && b.candidate == a.candidate && b.offset == a.offset && b.localIP == a.localIP
  }

  ghost predicate Claimed(a: Node, b: Node) {
    && a.phase.Probing? && b.phase.Stable?
    && b.localIP == b.candidate == a.candidate && b.offset == a.offset
  }

  ghost predicate Moved(a: Node, b: Node) {
    b.phase.Probing? && b.offset == Increment32(a.offset) && b.conflicts == []
  }

  ghost predicate Started(a: Node, b: Node) {
    a.phase.Idle? && b.phase.Probing? && b.offset == a.offset && b.conflicts == []
  }

  /** Every handler keeps the node, claims, moves it, or starts it. */
  lemma HandlerMoves(a: Node, e: Event)
    requires e.Begin? ==> a.phase.Idle?
    ensures var b := React(a, e).node;
            && b.id == a.id
            && (Kept(a, b) || Claimed(a, b) || Moved(a, b) || Started(a, b))
            && (Started(a, b) ==> e.Begin?)
  {}

  ghost predicate Releasing(a: Node, e: Event, out: Outgoing) {
    && e.Timeout? && TimedOut(a, e.now) && CanClaim(a.id, a.conflicts, e.now)
    && out in Releases(a.candidate, a.id, a.conflicts, e.now)
  }

  lemma ReleasingNamesOwn(a: Node, e: Event, out: Outgoing)
    requires Releasing(a, e, out)
    ensures NamesOwn(a, React(a, e).node, out)
    ensures out.Send? && exists c :: c in a.conflicts && c.sender == out.target
  {
    var releases := Releases(a.candidate, a.id, a.conflicts, e.now);
    var k :| 0 <= k < |releases| && releases[k] == out;
    ReleasesNameOwn(a, React(a, e).node, e.now, k);
  }

  lemma OthersNameOwn(a: Node, e: Event, out: Outgoing)
    requires out in React(a, e).outs && !Releasing(a, e, out)
    requires e.Reannounce? ==> a.phase.Stable?
    ensures NamesOwn(a, React(a, e).node, out)
    ensures out.Send? ==> e.AnnounceTo? || e.Deliver?
    ensures out.Send? ==> out.target == if e.AnnounceTo? then e.peer else e.p.from
  {
    match e
    case Deliver(p, now) => AnswersNameOwn(a, p.msg, p.from, now, out);
    case _ =>
  }

  lemma AnswersNameOwn(a: Node, msg: Message, sender: SteamID, now: int, out: Outgoing)
    requires out in OnMessage(a, msg, sender, now).outs
    ensures NamesOwn(a, OnMessage(a, msg, sender, now).node, out)
    ensures out.Send? ==> out.target == sender
  {}

  /** Besides, whatever a handler sends is signed by the node and names the address it then
      stands for. */
  lemma HandlerShape(a: Node, e: Event)
    requires e.Begin? ==> a.phase.Idle?
    requires e.Reannounce? ==> a.phase.Stable?
    ensures var b := React(a, e).node;
            && b.id == a.id
            && (Kept(a, b) || Claimed(a, b) || Moved(a, b) || Started(a, b))
            && (Started(a, b) ==> e.Begin?)
    ensures forall out | out in React(a, e).outs :: NamesOwn(a, React(a, e).node, out)
  {
    HandlerMoves(a, e);
    forall out | out in React(a, e).outs ensures NamesOwn(a, React(a, e).node, out) {
      if Releasing(a, e, out) {
        ReleasingNamesOwn(a, e, out);
      } else {
        OthersNameOwn(a, e, out);
      }
    }
  }

  // ----- authorship -----

  ghost predicate Authentic(s: System) {
    && (forall i, j | 0 <= i < |s.nodes| && 0 <= j < |s.nodes| && i != j :: s.nodes[i].id != s.nodes[j].id)
    && (forall p | p in s.wire ::
          p.from < |s.nodes| && p.to < |s.nodes| && p.from != p.to && p.msg.nodeId == s.nodes[p.from].id)
    && (forall i | 0 <= i < |s.nodes| ::
          (s.nodes[i].phase.Stable? ==> s.nodes[i].localIP == s.nodes[i].candidate)
          && forall c | c in s.nodes[i].conflicts ::
               c.sender < |s.nodes| && c.sender != i && c.nodeId == s.nodes[c.sender].id)
  }

  lemma TargetsOthers(s: System, e: Event, out: Outgoing)
    requires Authentic(s) && Enabled(s, e)
    requires out in React(s.nodes[Actor(e)], e).outs && out.Send?
    ensures out.target != Actor(e)
  {
    var a := s.nodes[Actor(e)];
    if Releasing(a, e, out) {
      ReleasingNamesOwn(a, e, out);
    } else {
      OthersNameOwn(a, e, out);
    }
  }

  /** A stored conflict was there before or came with the packet just delivered. */
  lemma NewConflict(s: System, e: Event, c: Conflict)
    requires Enabled(s, e) && c in React(s.nodes[Actor(e)], e).node.conflicts
    ensures var a := s.nodes[Actor(e)];
            c in a.conflicts
            || exists p :: p in s.wire && p.to == Actor(e) && p.from == c.sender
                           && p.msg.nodeId == c.nodeId && p.msg.ip == a.candidate
  {
    if c !in s.nodes[Actor(e)].conflicts {
      assert e.p in s.wire && e.p.from == c.sender;
    }
  }

  /** A packet on the wire after a step was there before or is signed by the actor. */
  lemma NewPackets(s: System, e: Event, p: Packet)
    requires Authentic(s) && Enabled(s, e) && p in Apply(s, e).wire && p !in s.wire
    ensures p.from == Actor(e) && p.to < |s.nodes| && p.to != p.from
    ensures p.msg.nodeId == s.nodes[p.from].id && p.msg.ip == Held(Apply(s, e).nodes[p.from])
    ensures p.msg.AddressAnnounce? || p.msg.ForcedRelease? ==> Apply(s, e).nodes[p.from].phase.Stable?
  {
    var i := Actor(e);
    var a, r := s.nodes[i], React(s.nodes[i], e);
    WireAfter(s, e, p);
    var k :| 0 <= k < |r.outs| && Carries(|s.nodes|, i, r.outs[k], p);
    HandlerShape(a, e);
    assert NamesOwn(a, r.node, r.outs[k]);
    if r.outs[k].Send? {
      TargetsOthers(s, e, r.outs[k]);
    }
  }

  /** What a step of actor i amounts to for everybody else. */
  ghost predicate Evolves(s: System, s': System, i: nat) {
    && i < |s.nodes| == |s'.nodes|
    && (forall j | 0 <= j < |s.nodes| && j != i :: s'.nodes[j] == s.nodes[j])
    && s'.nodes[i].id == s.nodes[i].id
    && (s'.nodes[i].phase.Stable? ==> s'.nodes[i].localIP == s'.nodes[i].candidate)
    && (forall p | p in s'.wire && p !in s.wire ::
          && p.from == i && p.to < |s.nodes| && p.to != i
          && p.msg.nodeId == s.nodes[i].id && p.msg.ip == Held(s'.nodes[i])
          && (p.msg.AddressAnnounce? || p.msg.ForcedRelease? ==> s'.nodes[i].phase.Stable?))
    && (forall c | c in s'.nodes[i].conflicts ::
          c in s.nodes[i].conflicts
          || exists p :: p in s.wire && p.to == i && p.from == c.sender
                         && p.msg.nodeId == c.nodeId && p.msg.ip == s.nodes[i].candidate)
  }

  lemma StepEvolves(s: System, e: Event)
    requires Authentic(s) && Enabled(s, e)
    ensures Evolves(s, Apply(s, e), Actor(e))
  {
    var i, s' := Actor(e), Apply(s, e);
    HandlerShape(s.nodes[i], e);
    forall p | p in s'.wire && p !in s.wire
      ensures p.from == i && p.to < |s.nodes| && p.to != i
      ensures p.msg.nodeId == s.nodes[i].id && p.msg.ip == Held(s'.nodes[i])
      ensures p.msg.AddressAnnounce? || p.msg.ForcedRelease? ==> s'.nodes[i].phase.Stable?
    {
      NewPackets(s, e, p);
    }
    forall c | c in s'.nodes[i].conflicts
      ensures c in s.nodes[i].conflicts
              || exists p :: p in s.wire && p.to == i && p.from == c.sender
                             && p.msg.nodeId == c.nodeId && p.msg.ip == s.nodes[i].candidate
    {
      NewConflict(s, e, c);
    }
  }

  lemma AuthenticEvolves(s: System, s': System, i: nat)
    requires Authentic(s) && Evolves(s, s', i)
    ensures Authentic(s')
  {}

  lemma AuthenticStep(s: System, e: Event)
    requires Authentic(s) && Enabled(s, e)
    ensures Authentic(Apply(s, e)) && |Apply(s, e).nodes| == |s.nodes|
    ensures forall j | 0 <= j < |s.nodes| :: Apply(s, e).nodes[j].id == s.nodes[j].id
  {
    var s' := Apply(s, e);
    StepEvolves(s, e);
    AuthenticEvolves(s, s', Actor(e));
  }

  // ----- no duplicate survives quiescence -----

  ghost predicate Duplicate(s: System, i: nat, j: nat)
    requires i < |s.nodes| && j < |s.nodes|
  {
    && i != j
    && s.nodes[i].phase.Stable? && s.nodes[j].phase.Stable?
    && s.nodes[i].localIP == s.nodes[j].localIP
  }

  /** The messages that will make the weaker node j of a duplicate pair give way. */
  ghost function Resolvers(s: System, i: nat, j: nat): set<Packet>
    requires i < |s.nodes| && j < |s.nodes|
  {
    var ip := s.nodes[i].localIP;
    {Packet(i, j, AddressAnnounce(ip, s.nodes[i].id)),
     Packet(j, i, AddressAnnounce(ip, s.nodes[j].id)),
     Packet(i, j, ForcedRelease(ip, s.nodes[i].id))}
  }

  ghost predicate Resolving(s: System, i: nat, j: nat)
    requires i < |s.nodes| && j < |s.nodes|
  {
    Duplicate(s, i, j) && Stronger(s, i, j) ==> exists p :: p in Resolvers(s, i, j) && p in s.wire
  }

  ghost predicate DuplicatesResolving(s: System) {
    forall i, j | 0 <= i < |s.nodes| && 0 <= j < |s.nodes| :: Resolving(s, i, j)
  }

  /** A stable node that learns of a stronger claim on its address gives way. */
  lemma WeakerGivesWay(s: System, e: Event)
    requires Authentic(s) && Enabled(s, e) && e.Deliver?
    requires e.p.msg.AddressAnnounce? || e.p.msg.ForcedRelease?
    requires s.nodes[e.p.to].phase.Stable? && e.p.msg.ip == s.nodes[e.p.to].localIP
    requires e.p.from < |s.nodes| && Stronger(s, e.p.from, e.p.to)
    ensures Apply(s, e).nodes[e.p.to].phase.Probing?
  {
    var a, sender := s.nodes[e.p.to], s.nodes[e.p.from];
    assert e.p.msg.nodeId == sender.id;
    PriorityIsStrictTotalOrder(sender.id, a.id, sender.id);
    assert React(a, e) == Reselect(a, e.now);
  }

  /** A stable node that learns of a weaker claim on its address stays and sends a release. */
  lemma StrongerSendsRelease(s: System, e: Event)
    requires Authentic(s) && Enabled(s, e) && e.Deliver? && e.p.msg.AddressAnnounce?
    requires s.nodes[e.p.to].phase.Stable? && e.p.msg.ip == s.nodes[e.p.to].localIP
    requires e.p.from < |s.nodes| && Stronger(s, e.p.to, e.p.from)
    ensures Apply(s, e).nodes == s.nodes
    ensures Packet(e.p.to, e.p.from, ForcedRelease(e.p.msg.ip, s.nodes[e.p.to].id)) in Apply(s, e).wire
  {
    var a := s.nodes[e.p.to];
    var next := Packet(e.p.to, e.p.from, ForcedRelease(e.p.msg.ip, a.id));
    assert e.p.msg.nodeId == s.nodes[e.p.from].id;
    var r := React(a, e);
    assert r == Reaction(a, [Send(e.p.from, next.msg)]);
    assert Carries(|s.nodes|, e.p.to, r.outs[0], next);
    WireAfter(s, e, next);
  }

  /** Delivering a resolver ends the duplicate or puts the next resolver on the wire. */
  lemma ResolverConsumed(s: System, e: Event, i: nat, j: nat)
    requires Authentic(s) && Enabled(s, e) && i < |s.nodes| && j < |s.nodes|
    requires Duplicate(s, i, j) && Stronger(s, i, j)
    requires e.Deliver? && e.p in Resolvers(s, i, j)
    ensures Resolving(Apply(s, e), i, j)
  {
    if e.p.to == i {
      StrongerSendsRelease(s, e);
      assert Packet(i, j, ForcedRelease(s.nodes[i].localIP, s.nodes[i].id)) in Resolvers(Apply(s, e), i, j);
    } else {
      WeakerGivesWay(s, e);
    }
  }

  /** Only a timeout claims, and the claim is announced to everybody else. */
  lemma ClaimBroadcasts(a: Node, e: Event)
    requires Claimed(a, React(a, e).node)
    ensures e.Timeout? && React(a, e).outs != []
    ensures React(a, e).outs[|React(a, e).outs| - 1] == Broadcast(AddressAnnounce(a.candidate, a.id))
  {}

  lemma ClaimAnnounced(s: System, e: Event, peer: nat)
    requires Enabled(s, e) && Claimed(s.nodes[Actor(e)], Apply(s, e).nodes[Actor(e)])
    requires peer < |s.nodes| && peer != Actor(e)
    ensures Packet(Actor(e), peer, AddressAnnounce(s.nodes[Actor(e)].candidate, s.nodes[Actor(e)].id)) in Apply(s, e).wire
  {
    var a, outs := s.nodes[Actor(e)], React(s.nodes[Actor(e)], e).outs;
    ClaimBroadcasts(a, e);
    var p := Packet(Actor(e), peer, AddressAnnounce(a.candidate, a.id));
    assert Carries(|s.nodes|, Actor(e), outs[|outs| - 1], p);
    WireAfter(s, e, p);
  }

  lemma ResolvingStep(s: System, e: Event, i: nat, j: nat)
    requires Authentic(s) && Enabled(s, e) && i < |s.nodes| && j < |s.nodes|
    requires Resolving(s, i, j)
    ensures Resolving(Apply(s, e), i, j)
  {
    var s', actor := Apply(s, e), Actor(e);
    HandlerShape(s.nodes[actor], e);
    if Duplicate(s', i, j) && Stronger(s', i, j) {
      if Duplicate(s, i, j) {
        var p :| p in Resolvers(s, i, j) && p in s.wire;
        if e.Deliver? && e.p == p {
          ResolverConsumed(s, e, i, j);
        } else {
          WireAfter(s, e, p);
          assert p in Resolvers(s', i, j);
        }
      } else {
        var peer := if actor == i then j else i;
        assert Claimed(s.nodes[actor], s'.nodes[actor]);
        ClaimAnnounced(s, e, peer);
        var p := Packet(actor, peer, AddressAnnounce(s.nodes[actor].candidate, s.nodes[actor].id));
        assert p in Resolvers(s', i, j);
      }
    }
  }

  lemma RunPrefix(trace: seq<System>, n: nat)
    requires Run(trace) && 0 < n <= |trace|
    ensures Run(trace[..n])
  {
    forall k | 0 <= k < n - 1 ensures Step(trace[..n][k], trace[..n][k + 1]) {
      assert Step(trace[k], trace[k + 1]);
    }
  }

  lemma EventOf(s: System, s': System) returns (e: Event)
    requires Step(s, s')
    ensures Enabled(s, e) && s' == Apply(s, e)
  {
    e :| Enabled(s, e) && s' == Apply(s, e);
  }

  lemma LastEvent(trace: seq<System>) returns (e: Event)
    requires Run(trace) && |trace| > 1
    ensures Enabled(trace[|trace| - 2], e) && trace[|trace| - 1] == Apply(trace[|trace| - 2], e)
  {
    LastStep(trace);
    e := EventOf(trace[|trace| - 2], trace[|trace| - 1]);
  }

  lemma LastStep(trace: seq<System>)
    requires Run(trace) && |trace| > 1
    ensures Step(trace[|trace| - 2], trace[|trace| - 1])
  {
    var k := |trace| - 2;
    assert Step(trace[k], trace[k + 1]);
  }

  lemma {:induction false} AuthenticRun(trace: seq<System>)
    requires Run(trace) && Authentic(trace[0])
    ensures Authentic(trace[|trace| - 1]) && |trace[|trace| - 1].nodes| == |trace[0].nodes|
    ensures forall j | 0 <= j < |trace[0].nodes| :: trace[|trace| - 1].nodes[j].id == trace[0].nodes[j].id
  {
    if |trace| > 1 {
      RunPrefix(trace, |trace| - 1);
      AuthenticRun(trace[..|trace| - 1]);
      var e := LastEvent(trace);
      AuthenticStep(trace[|trace| - 2], e);
    }
  }

  lemma DuplicatesResolvingStep(s: System, e: Event)
    requires Authentic(s) && Enabled(s, e) && DuplicatesResolving(s)
    ensures DuplicatesResolving(Apply(s, e))
  {
    AuthenticStep(s, e);
    forall i, j | 0 <= i < |s.nodes| && 0 <= j < |s.nodes| ensures Resolving(Apply(s, e), i, j) {
      assert Resolving(s, i, j);
      ResolvingStep(s, e, i, j);
    }
  }

  lemma {:induction false} DuplicatesResolvingRun(trace: seq<System>)
    requires Run(trace) && Initial(trace[0])
    ensures DuplicatesResolving(trace[|trace| - 1])
  {
    if |trace| > 1 {
      RunPrefix(trace, |trace| - 1);
      DuplicatesResolvingRun(trace[..|trace| - 1]);
      AuthenticRun(trace[..|trace| - 1]);
      var e := LastEvent(trace);
      DuplicatesResolvingStep(trace[|trace| - 2], e);
    }
  }

  /** In every reachable state each duplicate address has a resolving message in
      flight, so with nothing in flight all claimed addresses are distinct. */
  lemma QuiescentUniqueness(trace: seq<System>)
    requires Run(trace) && Initial(trace[0])
    ensures var s := trace[|trace| - 1];
            && DuplicatesResolving(s)
            && (s.wire == multiset{} ==>
                  forall i, j | 0 <= i < |s.nodes| && 0 <= j < |s.nodes| :: !Duplicate(s, i, j))
  {
    var s := trace[|trace| - 1];
    AuthenticRun(trace);
    DuplicatesResolvingRun(trace);
    forall i, j | 0 <= i < |s.nodes| && 0 <= j < |s.nodes| && s.wire == multiset{}
      ensures !Duplicate(s, i, j)
    {
      PriorityIsStrictTotalOrder(s.nodes[i].id, s.nodes[j].id, s.nodes[i].id);
      assert Resolving(s, i, j) && Resolving(s, j, i);
    }
  }

  // ----- only stronger nodes displace -----

  ghost predicate Disruptive(a: Node, msg: Message) {
    match a.phase
    case Idle => false
    case Probing => (msg.ProbeRequest? || msg.ForcedRelease?) && msg.ip == a.candidate
    case Stable => (msg.AddressAnnounce? || msg.ForcedRelease?) && msg.ip == a.localIP
  }

  /** Event e carries to node i the objection of the strictly stronger node k. */
  ghost predicate Threat(s: System, e: Event, i: nat, k: nat)
    requires i < |s.nodes| && k < |s.nodes|
  {
    && Stronger(s, k, i)
    && (|| (e.Deliver? && e.p.to == i && e.p.from == k && Disruptive(s.nodes[i], e.p.msg))
        || (e.Timeout? && e.i == i && TimedOut(s.nodes[i], e.now)
            && exists c :: c in s.nodes[i].conflicts && c.sender == k && !Stale(c, e.now)))
  }

  /** A started node gives up what it holds exactly when the event carries such an
      objection; otherwise offset, candidate and claimed address all stay. */
  lemma DisplacedExactlyByStronger(s: System, e: Event, i: nat)
    requires Authentic(s) && Enabled(s, e) && i < |s.nodes| && !s.nodes[i].phase.Idle?
    ensures var a, b := s.nodes[i], Apply(s, e).nodes[i];
            && (Moved(a, b) || Kept(a, b) || Claimed(a, b))
            && (Moved(a, b) <==> exists k: nat :: k < |s.nodes| && Threat(s, e, i, k))
  {
    var a, b := s.nodes[i], Apply(s, e).nodes[i];
    if Actor(e) == i {
      HandlerShape(a, e);
      if e.Deliver? {
        DeliveryDisplaces(s, e);
      } else if e.Timeout? {
        TimeoutDisplaces(s, e);
      }
    }
  }

  lemma DeliveryDisplaces(s: System, e: Event)
    requires Authentic(s) && Enabled(s, e) && e.Deliver?
    ensures var a, b := s.nodes[e.p.to], Apply(s, e).nodes[e.p.to];
            Moved(a, b) <==> exists k: nat :: k < |s.nodes| && Threat(s, e, e.p.to, k)
  {
    var i, k := e.p.to, e.p.from;
    var a := s.nodes[i];
    assert e.p in s.wire;
    PriorityIsStrictTotalOrder(a.id, s.nodes[k].id, a.id);
    if Disruptive(a, e.p.msg) && Stronger(s, k, i) {
      assert Threat(s, e, i, k);
    }
  }

  lemma TimeoutDisplaces(s: System, e: Event)
    requires Authentic(s) && Enabled(s, e) && e.Timeout?
    ensures var a, b := s.nodes[e.i], Apply(s, e).nodes[e.i];
            Moved(a, b) <==> exists k: nat :: k < |s.nodes| && Threat(s, e, e.i, k)
  {
    var i := e.i;
    var a := s.nodes[i];
    if TimedOut(a, e.now) {
      forall c | c in a.conflicts
        ensures !HasPriority(a.id, c.nodeId) <==> c.sender < |s.nodes| && Stronger(s, c.sender, i)
      {
        PriorityIsStrictTotalOrder(a.id, c.nodeId, a.id);
      }
      if c :| c in a.conflicts && !Stale(c, e.now) && !HasPriority(a.id, c.nodeId) {
        assert Threat(s, e, i, c.sender);
      }
    }
  }

  ghost predicate Strongest(s: System, g: nat) {
    g < |s.nodes| && forall k | 0 <= k < |s.nodes| && k != g :: Stronger(s, g, k)
  }

  /** b has not gone back on what a stood for. */
  ghost predicate Faithful(a: Node, b: Node) {
    && b.offset == a.offset
    && (!a.phase.Idle? ==> !b.phase.Idle? && Held(b) == Held(a) && (a.phase.Stable? ==> b.phase.Stable?))
  }

  lemma StrongestNotThreatened(s: System, e: Event, g: nat, k: nat)
    requires Strongest(s, g) && k < |s.nodes|
    ensures !Threat(s, e, g, k)
  {
    PriorityIsStrictTotalOrder(s.nodes[g].id, s.nodes[k].id, s.nodes[g].id);
    assert k != g ==> Stronger(s, g, k);
  }

  lemma StrongestStep(s: System, e: Event, g: nat)
    requires Authentic(s) && Enabled(s, e) && Strongest(s, g)
    ensures Faithful(s.nodes[g], Apply(s, e).nodes[g])
  {
    if s.nodes[g].phase.Idle? {
      assert React(s.nodes[Actor(e)], e).node.offset == s.nodes[g].offset || Actor(e) != g;
    } else {
      DisplacedExactlyByStronger(s, e, g);
      forall k: nat | k < |s.nodes| ensures !Threat(s, e, g, k) {
        StrongestNotThreatened(s, e, g, k);
      }
    }
  }

  lemma StrongestByIdentity(s: System, s': System, g: nat)
    requires Strongest(s, g) && |s'.nodes| == |s.nodes|
    requires forall j | 0 <= j < |s.nodes| :: s'.nodes[j].id == s.nodes[j].id
    ensures Strongest(s', g)
  {
    forall k: nat | k < |s'.nodes| && k != g ensures Stronger(s', g, k) {
      assert Stronger(s, g, k);
    }
  }

  lemma FaithfulTransitive(a: Node, b: Node, c: Node)
    requires Faithful(a, b) && Faithful(b, c)
    ensures Faithful(a, c)
  {}

  /** The strongest node keeps its first candidate for ever: no run displaces it. */
  lemma {:induction false} StrongestKeepsFirstCandidate(trace: seq<System>, g: nat)
    requires Run(trace) && Authentic(trace[0]) && Strongest(trace[0], g)
    ensures |trace[|trace| - 1].nodes| == |trace[0].nodes|
    ensures Faithful(trace[0].nodes[g], trace[|trace| - 1].nodes[g])
  {
    AuthenticRun(trace);
    if |trace| > 1 {
      RunPrefix(trace, |trace| - 1);
      StrongestKeepsFirstCandidate(trace[..|trace| - 1], g);
      AuthenticRun(trace[..|trace| - 1]);
      var s := trace[|trace| - 2];
      var e := LastEvent(trace);
      StrongestByIdentity(trace[0], s, g);
      StrongestStep(s, e, g);
      FaithfulTransitive(trace[0].nodes[g], s.nodes[g], Apply(s, e).nodes[g]);
    }
  }

  // ----- settled nodes stay settled -----

  ghost predicate Members(s: System, settled: set<nat>) {
    forall m | m in settled :: m < |s.nodes|
  }

  /** A set of claimed, pairwise different addresses that contains every node
      stronger than one of its own. */
  ghost predicate Upper(s: System, settled: set<nat>) {
    && Members(s, settled)
    && (forall m | m in settled :: s.nodes[m].phase.Stable?)
    && (forall m, m' | m in settled && m' in settled && m != m' :: s.nodes[m].localIP != s.nodes[m'].localIP)
    && (forall m, k: nat | m in settled && k < |s.nodes| && Stronger(s, k, m) :: k in settled)
  }

  /** A packet between members that would move its receiver. */
  ghost predicate Unsettling(s: System, settled: set<nat>, p: Packet)
    requires Members(s, settled)
  {
    && p.from in settled && p.to in settled
    && Stronger(s, p.from, p.to)
    && (p.msg.AddressAnnounce? || p.msg.ForcedRelease?) && p.msg.ip == s.nodes[p.to].localIP
  }

  ghost predicate Settled(s: System, settled: set<nat>) {
    Upper(s, settled) && forall p | p in s.wire :: !Unsettling(s, settled, p)
  }

  /** Every member still holds the address it held in `before`. */
  ghost predicate Unmoved(before: System, after: System, settled: set<nat>) {
    && |after.nodes| == |before.nodes| && Members(before, settled)
    && forall m | m in settled ::
         after.nodes[m].phase.Stable? && after.nodes[m].localIP == before.nodes[m].localIP
         && after.nodes[m].id == before.nodes[m].id
  }

  lemma MemberNotThreatened(s: System, e: Event, settled: set<nat>, m: nat, k: nat)
    requires Enabled(s, e) && Settled(s, settled) && m in settled && k < |s.nodes|
    ensures !Threat(s, e, m, k)
  {
    if e.Deliver? {
      assert !Unsettling(s, settled, e.p);
    }
  }

  lemma MemberUnmoved(s: System, e: Event, settled: set<nat>, m: nat)
    requires Authentic(s) && Enabled(s, e) && Settled(s, settled) && m in settled
    ensures Kept(s.nodes[m], Apply(s, e).nodes[m])
  {
    DisplacedExactlyByStronger(s, e, m);
    forall k: nat | k < |s.nodes| ensures !Threat(s, e, m, k) {
      MemberNotThreatened(s, e, settled, m, k);
    }
  }

  /** A step that leaves the members alone leaves them settled. */
  lemma SettledEvolves(s: System, s': System, i: nat, settled: set<nat>)
    requires Evolves(s, s', i) && Settled(s, settled) && Unmoved(s, s', settled)
    ensures Settled(s', settled)
  {
    forall m, k: nat | m in settled && k < |s'.nodes| && Stronger(s', k, m) ensures k in settled {
      assert Stronger(s, k, m);
    }
    forall p | p in s'.wire ensures !Unsettling(s', settled, p) {
      if p in s.wire {
        assert !Unsettling(s, settled, p);
      }
    }
  }

  lemma SettledStep(s: System, e: Event, settled: set<nat>)
    requires Authentic(s) && Enabled(s, e) && Settled(s, settled)
    ensures Settled(Apply(s, e), settled) && Unmoved(s, Apply(s, e), settled)
  {
    var s' := Apply(s, e);
    StepEvolves(s, e);
    forall m | m in settled ensures Kept(s.nodes[m], s'.nodes[m]) {
      MemberUnmoved(s, e, settled, m);
    }
    SettledEvolves(s, s', Actor(e), settled);
  }

  lemma {:induction false} SettledRun(trace: seq<System>, settled: set<nat>)
    requires Run(trace) && Authentic(trace[0]) && Settled(trace[0], settled)
    ensures Settled(trace[|trace| - 1], settled) && Unmoved(trace[0], trace[|trace| - 1], settled)
  {
    if |trace| > 1 {
      RunPrefix(trace, |trace| - 1);
      SettledRun(trace[..|trace| - 1], settled);
      AuthenticRun(trace[..|trace| - 1]);
      var e := LastEvent(trace);
      SettledStep(trace[|trace| - 2], e, settled);
    }
  }

  lemma UnsettlingMoves(s: System, settled: set<nat>, p: Packet) returns (trace: seq<System>)
    requires Authentic(s) && Upper(s, settled) && p in s.wire && Unsettling(s, settled, p)
    ensures Run(trace) && trace[0] == s && !Unmoved(s, trace[|trace| - 1], settled)
  {
    var e := Deliver(p, 0);
    trace := [s, Apply(s, e)];
    assert Enabled(s, e);
    assert Step(trace[0], trace[1]);
    WeakerGivesWay(s, e);
  }

  /** No run ever moves a member exactly when no unsettling packet is in flight. */
  lemma SettledStaySettled(s: System, settled: set<nat>)
    requires Authentic(s) && Upper(s, settled)
    ensures Settled(s, settled) <==>
            forall trace | Run(trace) && trace[0] == s :: Unmoved(s, trace[|trace| - 1], settled)
  {
    forall trace | Settled(s, settled) && Run(trace) && trace[0] == s
      ensures Unmoved(s, trace[|trace| - 1], settled)
    {
      SettledRun(trace, settled);
    }
    if p :| p in s.wire && Unsettling(s, settled, p) {
      var trace := UnsettlingMoves(s, settled, p);
    }
  }

  // ----- the next node joins the settled ones -----

  /** Outside the settled set, `next` is the strongest; it probes an address no
      member holds, and nothing on its way or in its store says a member does. */
  ghost predicate Ready(s: System, settled: set<nat>, next: nat) {
    && Settled(s, settled)
    && next < |s.nodes| && next !in settled
    && s.nodes[next].phase.Probing?
    && (forall k: nat | k < |s.nodes| && Stronger(s, k, next) :: k in settled)
    && (forall m | m in settled :: s.nodes[m].localIP != s.nodes[next].candidate)
    && (forall p | p in s.wire && p.from in settled && p.to == next :: p.msg.ip != s.nodes[next].candidate)
    && (forall c | c in s.nodes[next].conflicts :: c.sender !in settled)
  }

  /** `next` has claimed ip, and it has joined the settled set. */
  ghost predicate Joined(s: System, settled: set<nat>, next: nat, ip: Word32) {
    next < |s.nodes| && Settled(s, settled + {next}) && s.nodes[next].localIP == ip
  }

  lemma ReadyNodeNotThreatened(s: System, e: Event, settled: set<nat>, next: nat, k: nat)
    requires Enabled(s, e) && Ready(s, settled, next) && k < |s.nodes|
    ensures !Threat(s, e, next, k)
  {
    assert e.Deliver? ==> e.p in s.wire;
  }

  lemma ReadyNodeNotDisplaced(s: System, e: Event, settled: set<nat>, next: nat)
    requires Authentic(s) && Enabled(s, e) && Ready(s, settled, next)
    ensures !Moved(s.nodes[next], Apply(s, e).nodes[next])
    ensures Kept(s.nodes[next], Apply(s, e).nodes[next]) || Claimed(s.nodes[next], Apply(s, e).nodes[next])
  {
    DisplacedExactlyByStronger(s, e, next);
    forall k: nat | k < |s.nodes| ensures !Threat(s, e, next, k) {
      ReadyNodeNotThreatened(s, e, settled, next, k);
    }
  }

  lemma ReadyClaims(s: System, s': System, i: nat, settled: set<nat>, next: nat)
    requires Ready(s, settled, next) && Evolves(s, s', i)
    requires Settled(s', settled) && Unmoved(s, s', settled) && Claimed(s.nodes[next], s'.nodes[next])
    ensures Joined(s', settled, next, s.nodes[next].candidate)
  {
    forall m, k: nat | m in settled + {next} && k < |s'.nodes| && Stronger(s', k, m)
      ensures k in settled + {next}
    {
      assert Stronger(s, k, m);
    }
    forall p | p in s'.wire ensures !Unsettling(s', settled + {next}, p) {
      assert !Unsettling(s', settled, p);
      assert p.from == next && p.to in settled ==> !Stronger(s, next, p.to);
      PriorityIsStrictTotalOrder(s.nodes[next].id, s.nodes[next].id, s.nodes[next].id);
    }
  }

  lemma ReadyKept(s: System, s': System, i: nat, settled: set<nat>, next: nat)
    requires Ready(s, settled, next) && Evolves(s, s', i)
    requires Settled(s', settled) && Unmoved(s, s', settled) && Kept(s.nodes[next], s'.nodes[next])
    ensures Ready(s', settled, next)
  {
    forall k: nat | k < |s'.nodes| && Stronger(s', k, next) ensures k in settled {
      assert Stronger(s, k, next);
    }
  }

  lemma ReadyStep(s: System, e: Event, settled: set<nat>, next: nat)
    requires Authentic(s) && Enabled(s, e) && Ready(s, settled, next)
    ensures var s', ip := Apply(s, e), s.nodes[next].candidate;
            if Claimed(s.nodes[next], s'.nodes[next]) then Joined(s', settled, next, ip)
            else Ready(s', settled, next) && s'.nodes[next].candidate == ip
  {
    var s', i := Apply(s, e), Actor(e);
    StepEvolves(s, e);
    SettledStep(s, e, settled);
    ReadyNodeNotDisplaced(s, e, settled, next);
    if Claimed(s.nodes[next], s'.nodes[next]) {
      ReadyClaims(s, s', i, settled, next);
    } else {
      ReadyKept(s, s', i, settled, next);
    }
  }

  /** As long as a run goes on, the ready node waits on its candidate or has claimed
      it for good; and the first timeout whose reading says so makes it claim. */
  lemma {:induction false} ReadyNodeJoins(trace: seq<System>, settled: set<nat>, next: nat)
    requires Run(trace) && Authentic(trace[0]) && Ready(trace[0], settled, next)
    ensures var s, ip := trace[|trace| - 1], trace[0].nodes[next].candidate;
            && Unmoved(trace[0], s, settled)
            && ((Ready(s, settled, next) && s.nodes[next].candidate == ip) || Joined(s, settled, next, ip))
  {
    SettledRun(trace, settled);
    if |trace| > 1 {
      var s := trace[|trace| - 2];
      RunPrefix(trace, |trace| - 1);
      ReadyNodeJoins(trace[..|trace| - 1], settled, next);
      AuthenticRun(trace[..|trace| - 1]);
      var e := LastEvent(trace);
      if Joined(s, settled, next, trace[0].nodes[next].candidate) {
        SettledStep(s, e, settled + {next});
      } else {
        ReadyStep(s, e, settled, next);
      }
    }
  }

  lemma ReadyTimeoutClaims(s: System, settled: set<nat>, next: nat, now: int)
    requires Authentic(s) && Ready(s, settled, next) && TimedOut(s.nodes[next], now)
    ensures Joined(Apply(s, Timeout(next, now)), settled, next, s.nodes[next].candidate)
  {
    var e := Timeout(next, now);
    ReadyNodeNotDisplaced(s, e, settled, next);
    ReadyStep(s, e, settled, next);
  }

  /** A node that knows the settled addresses and still has a free host in its view
      restarts on an address no settled node holds. */
  lemma ReselectAvoidsSettled(s: System, settled: set<nat>, next: nat, hostBits: nat, host: Word32, now: int)
    requires Members(s, settled) && next < |s.nodes|
    requires var a := s.nodes[next];
             && a.net.Contiguous(hostBits) && 2 <= hostBits
             && IsHost(hostBits, host) && a.net.Address(host) !in a.used
             && forall m | m in settled :: s.nodes[m].localIP in a.used
    ensures forall m | m in settled :: Start(s.nodes[next], now).node.candidate != s.nodes[m].localIP
  {
    var a := s.nodes[next];
    NextAvailableComplete(a.net, hostBits, a.used, GenerateCandidate(a.net, a.id, a.offset));
  }
}
