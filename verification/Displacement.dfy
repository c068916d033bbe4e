/** How often a node can be moved: behind a settled set of stronger nodes, in every run at most as
    often as the offsets take to reach a host that stays free. */
module Displacement {
  import opened Words
  import opened NodeIdentity
  import opened Subnet
  import opened IpNegotiation
  import opened NegotiationSystem
  import opened Convergence

  // ----- reaching a host by raising the offset -----

  function Raised(offset: Word32, k: nat): Word32 {
    if k == 0 then offset else Increment32(Raised(offset, k - 1))
  }

  lemma {:induction false} RaisedHash(id: NodeID, offset: Word32, k: nat)
    requires LowHash(id, offset) + k < 2 * TWO_24
    ensures var x := LowHash(id, offset) + k;
            LowHash(id, Raised(offset, k)) == if x < TWO_24 then x else x - TWO_24
  {
    if k > 0 {
      RaisedHash(id, offset, k - 1);
      LowHashStep(id, Raised(offset, k - 1));
    }
  }

  lemma CandidateOfHash(net: Network, hostBits: nat, id: NodeID, offset: Word32, q: nat, host: Word32)
    requires net.Contiguous(hostBits) && 2 <= hostBits && IsHost(hostBits, host)
    requires LowHash(id, offset) == net.MaxHosts() * q + (host - 1)
    ensures GenerateCandidate(net, id, offset) == net.Address(host)
  {
    ContiguousFacts(net, hostBits);
    DivisionUnique(LowHash(id, offset), net.MaxHosts(), q, host - 1);
    CandidateHost(net, hostBits, id, offset);
    AddressParts(net, hostBits, host);
  }

  /** How many steps on from x the next number of remainder t lies, and its quotient. */
  lemma StepsTo(x: nat, m: nat, t: nat) returns (d: nat, q: nat)
    requires t < m
    ensures 0 < d <= m && x + d == m * q + t
  {
    var r := x % m;
    q := x / m;
    assert x == m * q + r;
    if t > r {
      d := t - r;
    } else {
      assert m * (q + 1) == m * q + m;
      q := q + 1;
      d := m - r + t;
    }
  }

  /** From any offset on, every host comes up within twice as many steps as there are hosts. */
  lemma HostComesUp(net: Network, hostBits: nat, id: NodeID, offset: Word32, host: Word32) returns (d: nat)
    requires net.Contiguous(hostBits) && 2 <= hostBits <= 24 && IsHost(hostBits, host)
    ensures 0 < d <= 2 * net.MaxHosts() && GenerateCandidate(net, id, Raised(offset, d)) == net.Address(host)
  {
    HostsBelow24(net, hostBits);
    var m, x, t := net.MaxHosts(), LowHash(id, offset), host - 1;
    ContiguousFacts(net, hostBits);
    var q;
    if x + m < TWO_24 {
      d, q := StepsTo(x, m, t);
    } else {
      d, q := TWO_24 - x + t, 0;
    }
    RaisedHash(id, offset, d);
    CandidateOfHash(net, hostBits, id, Raised(offset, d), q, host);
  }

  lemma HostsBelow24(net: Network, hostBits: nat)
    requires net.Contiguous(hostBits) && 2 <= hostBits <= 24
    ensures 2 <= net.MaxHosts() < TWO_24
  {
    Pow2Values();
    Pow2Monotonic(hostBits, 24);
    ContiguousFacts(net, hostBits);
  }

  /** A generated candidate that is not known as used is taken as it is. */
  lemma FreeIsTaken(net: Network, hostBits: nat, used: set<Word32>, host: Word32)
    requires net.Contiguous(hostBits) && 2 <= hostBits && IsHost(hostBits, host)
    requires net.Address(host) !in used
    ensures NextAvailable(net, used, net.Address(host)) == net.Address(host)
  {
    ContiguousFacts(net, hostBits);
    AddressParts(net, hostBits, host);
  }

  // ----- what a node behind settled ones can be told -----

  /** The settled nodes tell `next` only of addresses they hold: in flight, and in the conflicts
      stored against its candidate. */
  ghost predicate Behind(s: System, settled: set<nat>, next: nat) {
    && Authentic(s) && Settled(s, settled) && NextInLine(s, settled, next)
    && (forall p | p in s.wire && p.from in settled && p.to == next :: p.msg.ip in HeldBy(s, settled))
    && (forall c | c in s.nodes[next].conflicts && c.sender in settled ::
          s.nodes[next].candidate in HeldBy(s, settled))
  }

  lemma FreshCandidate(a: Node, e: Event)
    requires e.Begin? ==> a.phase.Idle?
    ensures var b := React(a, e).node;
            && b.net == a.net
            && (Moved(a, b) || Started(a, b) ==>
                  b.candidate == NextAvailable(a.net, a.used, GenerateCandidate(a.net, a.id, b.offset)))
            && (Moved(a, b) ==> !a.phase.Idle?)
  {
    OffsetChanges(a.offset);
  }

  lemma OffsetChanges(offset: Word32)
    ensures Increment32(offset) != offset
  {}

  lemma HeldStays(s: System, s': System, settled: set<nat>)
    requires Members(s, settled) && Unmoved(s, s', settled)
    ensures HeldBy(s', settled) == HeldBy(s, settled)
  {
    forall m | m in settled ensures s'.nodes[m].localIP == s.nodes[m].localIP {}
  }

  lemma InboundStaysTruthful(s: System, e: Event, settled: set<nat>, next: nat, p: Packet)
    requires Behind(s, settled, next) && Enabled(s, e)
    requires Unmoved(s, Apply(s, e), settled)
    requires p in Apply(s, e).wire && p.from in settled && p.to == next
    ensures p.msg.ip in HeldBy(s, settled)
  {
    if p !in s.wire {
      NewPackets(s, e, p);
      assert Held(Apply(s, e).nodes[p.from]) == s.nodes[p.from].localIP;
    }
  }

  lemma ConflictsStayTruthful(s: System, e: Event, settled: set<nat>, next: nat, c: Conflict)
    requires Behind(s, settled, next) && Enabled(s, e)
    requires c in Apply(s, e).nodes[next].conflicts && c.sender in settled
    ensures Apply(s, e).nodes[next].candidate in HeldBy(s, settled)
  {
    if Actor(e) == next {
      HandlerShape(s.nodes[next], e);
      NewConflict(s, e, c);
    }
  }

  lemma BehindStep(s: System, e: Event, settled: set<nat>, next: nat)
    requires Behind(s, settled, next) && Enabled(s, e)
    ensures Behind(Apply(s, e), settled, next) && HeldBy(Apply(s, e), settled) == HeldBy(s, settled)
  {
    var s' := Apply(s, e);
    AuthenticStep(s, e);
    SettledStep(s, e, settled);
    HeldStays(s, s', settled);
    forall k: nat | k < |s'.nodes| && Stronger(s', k, next) ensures k in settled {
      assert Stronger(s, k, next);
    }
    forall p | p in s'.wire && p.from in settled && p.to == next ensures p.msg.ip in HeldBy(s', settled) {
      InboundStaysTruthful(s, e, settled, next, p);
    }
    forall c | c in s'.nodes[next].conflicts && c.sender in settled
      ensures s'.nodes[next].candidate in HeldBy(s', settled)
    {
      ConflictsStayTruthful(s, e, settled, next, c);
    }
  }

  lemma NoThreatWhenFree(s: System, e: Event, settled: set<nat>, next: nat, k: nat)
    requires Behind(s, settled, next) && Enabled(s, e) && k < |s.nodes|
    requires Held(s.nodes[next]) !in HeldBy(s, settled)
    ensures !Threat(s, e, next, k)
  {
    assert e.Deliver? ==> e.p in s.wire;
  }

  /** A node that stands for an address no settled node holds is not moved. */
  lemma FreeIsKept(s: System, e: Event, settled: set<nat>, next: nat)
    requires Behind(s, settled, next) && Enabled(s, e) && !s.nodes[next].phase.Idle?
    requires Held(s.nodes[next]) !in HeldBy(s, settled)
    ensures var a, b := s.nodes[next], Apply(s, e).nodes[next];
            Kept(a, b) || Claimed(a, b)
  {
    DisplacedExactlyByStronger(s, e, next);
    forall k: nat | k < |s.nodes| ensures !Threat(s, e, next, k) {
      NoThreatWhenFree(s, e, settled, next, k);
    }
  }

  // ----- counting -----

  /** The sum of a quantity over the first n steps of a sequence. */
  ghost function Total<T>(trace: seq<T>, change: (T, T) -> nat, n: nat): nat
    requires n < |trace|
  {
    if n == 0 then 0 else Total(trace, change, n - 1) + change(trace[n - 1], trace[n])
  }

  ghost function Changed(next: nat): (System, System) -> nat {
    (s: System, s': System) =>
      if next < |s.nodes| && next < |s'.nodes| && s'.nodes[next].offset != s.nodes[next].offset then 1 else 0
  }

  /** How often the offset of a node changes in a run. */
  ghost function Displacements(trace: seq<System>, next: nat): nat
    requires trace != []
  {
    Total(trace, Changed(next), |trace| - 1)
  }

  /** `next` was moved k times, d times lead it to the free host f, and there it stays. */
  ghost predicate Counted(first: Node, a: Node, d: nat, k: nat, f: Word32) {
    && k <= d && a.offset == Raised(first.offset, k) && a.id == first.id && a.net == first.net
    && (k == d && !a.phase.Idle? ==> Held(a) == f)
  }

  /** Raising the offset d times generates host f. */
  ghost predicate Target(a: Node, d: nat, f: Word32) {
    && (d > 0 || a.phase.Idle?)
    && GenerateCandidate(a.net, a.id, Raised(a.offset, d)) == f
    && exists hostBits, host: Word32 ::
         2 <= hostBits && a.net.Contiguous(hostBits) && IsHost(hostBits, host) && f == a.net.Address(host)
  }

  lemma TargetTaken(first: Node, d: nat, f: Word32, used: set<Word32>)
    requires Target(first, d, f) && f !in used
    ensures NextAvailable(first.net, used, GenerateCandidate(first.net, first.id, Raised(first.offset, d))) == f
  {
    var hostBits, host: Word32 :| 2 <= hostBits && first.net.Contiguous(hostBits) && IsHost(hostBits, host)
                                  && f == first.net.Address(host);
    FreeIsTaken(first.net, hostBits, used, host);
  }

  /** One change of the node, counted. */
  lemma CountChange(first: Node, a: Node, b: Node, d: nat, k: nat, f: Word32) returns (k': nat)
    requires Counted(first, a, d, k, f) && b.id == a.id && b.net == a.net
    requires b.phase.Stable? ==> b.localIP == b.candidate
    requires a.phase.Stable? ==> a.localIP == a.candidate
    requires Kept(a, b) || Claimed(a, b) || Moved(a, b) || Started(a, b)
    requires Moved(a, b) ==> k < d
    requires Moved(a, b) || Started(a, b) ==>
               b.candidate == NextAvailable(a.net, a.used, GenerateCandidate(a.net, a.id, b.offset))
    requires NextAvailable(first.net, a.used, GenerateCandidate(first.net, first.id, Raised(first.offset, d))) == f
    ensures Counted(first, b, d, k', f)
    ensures k' == k + if b.offset != a.offset then 1 else 0
  {
    OffsetChanges(a.offset);
    k' := k + if b.offset != a.offset then 1 else 0;
    if Moved(a, b) {
      assert b.offset == Raised(first.offset, k + 1);
    }
  }

  lemma CountStep(first: Node, s: System, e: Event, settled: set<nat>, next: nat, d: nat, k: nat, f: Word32) returns (k': nat)
    requires Behind(s, settled, next) && Enabled(s, e) && Target(first, d, f)
    requires f !in HeldBy(s, settled) && f !in s.nodes[next].used
    requires Counted(first, s.nodes[next], d, k, f)
    ensures next < |Apply(s, e).nodes|
    ensures Counted(first, Apply(s, e).nodes[next], d, k', f)
    ensures k' == k + if Apply(s, e).nodes[next].offset != s.nodes[next].offset then 1 else 0
  {
    AuthenticStep(s, e);
    k' := k;
    if Actor(e) == next {
      var a, b := s.nodes[next], React(s.nodes[next], e).node;
      assert b == Apply(s, e).nodes[next];
      HandlerMoves(a, e);
      FreshCandidate(a, e);
      if Moved(a, b) {
        MovedEarly(s, e, settled, next);
      }
      TargetTaken(first, d, f, a.used);
      k' := CountChange(first, a, b, d, k, f);
    }
  }

  lemma MovedEarly(s: System, e: Event, settled: set<nat>, next: nat)
    requires Behind(s, settled, next) && Enabled(s, e) && !s.nodes[next].phase.Idle?
    requires Moved(s.nodes[next], Apply(s, e).nodes[next])
    ensures Held(s.nodes[next]) in HeldBy(s, settled)
  {
    OffsetChanges(s.nodes[next].offset);
    if Held(s.nodes[next]) !in HeldBy(s, settled) {
      FreeIsKept(s, e, settled, next);
    }
  }

  /** What a run keeps: `next` stays behind the same held addresses, and its moves are counted. */
  ghost predicate Tallied(first: Node, held: set<Word32>, s: System, settled: set<nat>, next: nat, d: nat, k: nat, f: Word32) {
    Behind(s, settled, next) && HeldBy(s, settled) == held && Counted(first, s.nodes[next], d, k, f)
  }

  lemma TallyStep(first: Node, held: set<Word32>, s: System, s': System, settled: set<nat>, next: nat, d: nat, k: nat, f: Word32)
    returns (k': nat)
    requires Tallied(first, held, s, settled, next, d, k, f) && Step(s, s')
    requires Target(first, d, f) && f !in held && f !in s.nodes[next].used
    ensures Tallied(first, held, s', settled, next, d, k', f) && k' == k + Changed(next)(s, s')
  {
    var e := EventOf(s, s');
    BehindStep(s, e, settled, next);
    k' := CountStep(first, s, e, settled, next, d, k, f);
  }

  /** Where `free` holds, a step takes tally k to the tally that counts its own change. */
  ghost predicate Advances<T>(tally: (T, nat) -> bool, step: (T, T) -> bool, free: T -> bool, change: (T, T) -> nat,
                              s: T, s': T, k: nat) {
    tally(s, k) && free(s) && step(s, s') ==> tally(s', k + change(s, s'))
  }

  lemma {:induction false} CountAlong<T(!new)>(trace: seq<T>, n: nat, tally: (T, nat) -> bool, step: (T, T) -> bool,
                                              free: T -> bool, change: (T, T) -> nat)
    requires n < |trace| && tally(trace[0], 0)
    requires forall k | 0 <= k < |trace| - 1 :: step(trace[k], trace[k + 1])
    requires forall s | s in trace :: free(s)
    requires forall s, s', k :: Advances(tally, step, free, change, s, s', k)
    ensures tally(trace[n], Total(trace, change, n))
  {
    if n > 0 {
      CountAlong(trace, n - 1, tally, step, free, change);
      assert trace[n - 1] in trace && step(trace[n - 1], trace[n - 1 + 1]);
      assert Advances(tally, step, free, change, trace[n - 1], trace[n], Total(trace, change, n - 1));
    }
  }

  ghost function Tally(first: Node, held: set<Word32>, settled: set<nat>, next: nat, d: nat, f: Word32): (System, nat) -> bool {
    (s: System, k: nat) => Tallied(first, held, s, settled, next, d, k, f)
  }

  ghost function Unused(next: nat, f: Word32): System -> bool {
    (s: System) => next < |s.nodes| && f !in s.nodes[next].used
  }

  lemma TallyAdvances(first: Node, held: set<Word32>, settled: set<nat>, next: nat, d: nat, f: Word32,
                      s: System, s': System, k: nat)
    requires Target(first, d, f) && f !in held
    ensures Advances(Tally(first, held, settled, next, d, f), Step, Unused(next, f), Changed(next), s, s', k)
  {
    if Tallied(first, held, s, settled, next, d, k, f) && Unused(next, f)(s) && Step(s, s') {
      var k' := TallyStep(first, held, s, s', settled, next, d, k, f);
    }
  }

  lemma CountRun(trace: seq<System>, settled: set<nat>, next: nat, d: nat, f: Word32, first: Node, held: set<Word32>)
    requires Run(trace) && Target(first, d, f) && f !in held
    requires Tally(first, held, settled, next, d, f)(trace[0], 0)
    requires forall s | s in trace :: Unused(next, f)(s)
    ensures Tally(first, held, settled, next, d, f)(trace[|trace| - 1], Displacements(trace, next))
  {
    forall s: System, s': System, k: nat
      ensures Advances(Tally(first, held, settled, next, d, f), Step, Unused(next, f), Changed(next), s, s', k)
    {
      TallyAdvances(first, held, settled, next, d, f, s, s', k);
    }
    CountAlong(trace, |trace| - 1, Tally(first, held, settled, next, d, f), Step, Unused(next, f), Changed(next));
  }

  /** Behind a settled set, with only truthful messages from it, a node is moved in any run at most
      twice as often as the subnet has hosts, as long as some host stays free in its view and is
      held by no settled node. */
  lemma DisplacementsBounded(trace: seq<System>, settled: set<nat>, next: nat, hostBits: nat, host: Word32)
    requires Run(trace) && Behind(trace[0], settled, next)
    requires var net := trace[0].nodes[next].net;
             && 2 <= hostBits <= 24 && net.Contiguous(hostBits) && IsHost(hostBits, host)
             && net.Address(host) !in HeldBy(trace[0], settled)
             && forall s | s in trace :: next < |s.nodes| && net.Address(host) !in s.nodes[next].used
    ensures Displacements(trace, next) <= 2 * trace[0].nodes[next].net.MaxHosts()
  {
    var first := trace[0].nodes[next];
    var d := HostComesUp(first.net, hostBits, first.id, first.offset, host);
    CountRun(trace, settled, next, d, first.net.Address(host), first, HeldBy(trace[0], settled));
  }
}
