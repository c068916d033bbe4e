/** The negotiation can always still succeed: from every state, whatever is in flight and
    whatever the clocks read, some order of events leads to all nodes holding different addresses
    for good. The schedule treats the nodes in the order of their priority. */
module Convergence {
  import opened Words
  import opened NodeIdentity
  import opened Subnet
  import opened IpNegotiation
  import opened NegotiationSystem

  // ----- runs with given clocks -----

  /** What node i's clock reads in a state: when its probe times out, and when it starts or
      receives. */
  datatype Clock = Clock(timer: (System, nat) -> int, other: (System, nat) -> int)

  /** A probe times out when it is due; nothing else is known of the clocks. */
  ghost predicate Due(clock: Clock) {
    forall s: System, i: nat | i < |s.nodes| && s.nodes[i].phase.Probing? ::
      TimedOut(s.nodes[i], clock.timer(s, i))
  }

  /** A start, a timeout or a delivery by the clock, or a stable node's announcement. */
  ghost predicate ByClock(clock: Clock, s: System, e: Event) {
    && Enabled(s, e)
    && (|| e.Reannounce?
        || (e.Timeout? && e.now == clock.timer(s, e.i))
        || ((e.Begin? || e.Deliver?) && e.now == clock.other(s, Actor(e))))
  }

  /** The address the bridge marks used when it hears of the event: an announced one, and the
      node's own when it has claimed it. */
  ghost function ToMark(s: System, e: Event): set<Word32>
    requires Enabled(s, e)
  {
    if e.Deliver? && e.p.msg.AddressAnnounce? then {e.p.msg.ip}
    else if Claimed(s.nodes[Actor(e)], Apply(s, e).nodes[Actor(e)]) then {s.nodes[Actor(e)].candidate}
    else {}
  }

  ghost function Marked(s: System, i: nat, ips: set<Word32>): System
    requires i < |s.nodes|
  {
    s.(nodes := s.nodes[i := s.nodes[i].(used := s.nodes[i].used + ips)])
  }

  /** The state after the event and the marking. */
  ghost function Played(s: System, e: Event): System
    requires Enabled(s, e)
  {
    Marked(Apply(s, e), Actor(e), ToMark(s, e))
  }

  ghost predicate Move(clock: Clock, s: System, s': System) {
    exists e :: ByClock(clock, s, e) && s' == Played(s, e)
  }

  ghost predicate Moves(clock: Clock, trace: seq<System>) {
    trace != [] && forall k | 0 <= k < |trace| - 1 :: Move(clock, trace[k], trace[k + 1])
  }

  ghost predicate Reaches(clock: Clock, s: System, s': System) {
    exists trace :: Moves(clock, trace) && trace[0] == s && trace[|trace| - 1] == s'
  }

  lemma ReachesSelf(clock: Clock, s: System)
    ensures Reaches(clock, s, s)
  {
    var trace := [s];
    assert Moves(clock, trace) && trace[0] == s && trace[|trace| - 1] == s;
  }

  lemma ReachesNext(clock: Clock, s: System, s': System, s'': System)
    requires Reaches(clock, s, s') && Move(clock, s', s'')
    ensures Reaches(clock, s, s'')
  {
    var trace :| Moves(clock, trace) && trace[0] == s && trace[|trace| - 1] == s';
    var longer := trace + [s''];
    forall k | 0 <= k < |longer| - 1 ensures Move(clock, longer[k], longer[k + 1]) {
      if k < |trace| - 1 {
        assert Move(clock, trace[k], trace[k + 1]);
      } else {
        assert longer[k] == s' && longer[k + 1] == s'';
      }
    }
    assert Moves(clock, longer) && longer[0] == s && longer[|longer| - 1] == s'';
  }

  lemma ReachesTransitive(clock: Clock, a: System, b: System, c: System)
    requires Reaches(clock, a, b) && Reaches(clock, b, c)
    ensures Reaches(clock, a, c)
  {
    var first :| Moves(clock, first) && first[0] == a && first[|first| - 1] == b;
    var second :| Moves(clock, second) && second[0] == b && second[|second| - 1] == c;
    var n := |first| - 1;
    var whole := first[..n] + second;
    forall k | 0 <= k < |whole| - 1 ensures Move(clock, whole[k], whole[k + 1]) {
      if k < n {
        assert Move(clock, first[k], first[k + 1]);
        assert whole[k + 1] == first[k + 1];
      } else {
        assert Move(clock, second[k - n], second[k - n + 1]);
      }
    }
    assert Moves(clock, whole) && whole[0] == a && whole[|whole| - 1] == c;
  }

  lemma MarkNothing(s: System, i: nat)
    requires i < |s.nodes|
    ensures Marked(s, i, {}) == s
  {
    assert s.nodes[i].used + {} == s.nodes[i].used;
    assert s.nodes[i := s.nodes[i]] == s.nodes;
  }

  lemma MarkOne(s: System, i: nat, ip: Word32)
    requires i < |s.nodes|
    ensures Step(s, Marked(s, i, {ip}))
  {
    var e := MarkUsed(i, ip);
    assert Enabled(s, e) && Apply(s, e) == Marked(s, i, {ip});
  }

  lemma StepOf(s: System, e: Event)
    requires Enabled(s, e)
    ensures Step(s, Apply(s, e)) && |Apply(s, e).nodes| == |s.nodes|
  {}

  lemma OneMark(s: System, e: Event) returns (ips: set<Word32>)
    requires Enabled(s, e)
    ensures |Apply(s, e).nodes| == |s.nodes|
    ensures Played(s, e) == Marked(Apply(s, e), Actor(e), ips)
    ensures ips == {} || exists ip :: ips == {ip}
  {
    ips := ToMark(s, e);
  }

  /** Marking is an event of the system too, so these runs are runs. */
  lemma MarkedByEvents(s: System, e: Event) returns (trace: seq<System>)
    requires Enabled(s, e)
    ensures Run(trace) && trace[0] == s && trace[|trace| - 1] == Played(s, e)
  {
    StepOf(s, e);
    var ips := OneMark(s, e);
    trace := MarkedRun(s, Apply(s, e), Actor(e), ips);
  }

  lemma MarkedRun(s: System, s1: System, i: nat, ips: set<Word32>) returns (trace: seq<System>)
    requires Step(s, s1) && i < |s1.nodes| && (ips == {} || exists ip :: ips == {ip})
    ensures Run(trace) && trace[0] == s && trace[|trace| - 1] == Marked(s1, i, ips)
  {
    trace := [s, s1];
    if ips == {} {
      MarkNothing(s1, i);
    } else {
      var ip :| ips == {ip};
      MarkOne(s1, i, ip);
      trace := [s, s1, Marked(s1, i, ips)];
    }
  }

  lemma {:induction false} MovesAreRuns(clock: Clock, trace: seq<System>) returns (run: seq<System>)
    requires Moves(clock, trace)
    ensures Run(run) && run[0] == trace[0] && run[|run| - 1] == trace[|trace| - 1]
  {
    run := [trace[0]];
    if |trace| > 1 {
      var n := |trace| - 1;
      assert Move(clock, trace[n - 1], trace[n - 1 + 1]);
      forall k | 0 <= k < n - 1 ensures Move(clock, trace[..n][k], trace[..n][k + 1]) {
        assert Move(clock, trace[k], trace[k + 1]);
      }
      var first := MovesAreRuns(clock, trace[..n]);
      var e :| ByClock(clock, trace[n - 1], e) && trace[n] == Played(trace[n - 1], e);
      var second := MarkedByEvents(trace[n - 1], e);
      run := JoinRuns(first, second);
    }
  }

  lemma JoinRuns(first: seq<System>, second: seq<System>) returns (whole: seq<System>)
    requires Run(first) && Run(second) && first[|first| - 1] == second[0]
    ensures Run(whole) && whole[0] == first[0] && whole[|whole| - 1] == second[|second| - 1]
  {
    var n := |first| - 1;
    whole := first[..n] + second;
    forall k | 0 <= k < |whole| - 1 ensures Step(whole[k], whole[k + 1]) {
      if k < n {
        assert Step(first[k], first[k + 1]);
        assert whole[k + 1] == first[k + 1];
      } else {
        assert Step(second[k - n], second[k - n + 1]);
      }
    }
  }

  // ----- one round: the next strongest node joins the settled ones -----

  ghost function HeldBy(s: System, settled: set<nat>): set<Word32> {
    set m | m in settled && m < |s.nodes| :: s.nodes[m].localIP
  }

  /** The addresses announced to node i and not yet delivered. */
  ghost function Announced(s: System, i: nat): set<Word32> {
    set p | p in s.wire && p.to == i && p.msg.AddressAnnounce? :: p.msg.ip
  }

  /** Every announcement in flight was there before or names one of the addresses. */
  ghost predicate AnnouncesOnly(before: System, s: System, ips: set<Word32>) {
    forall p | p in s.wire && p.msg.AddressAnnounce? :: p in before.wire || p.msg.ip in ips
  }

  ghost predicate NextInLine(s: System, settled: set<nat>, next: nat) {
    && next < |s.nodes| && next !in settled
    && forall k: nat | k < |s.nodes| && Stronger(s, k, next) :: k in settled
  }

  /** Only `next` has changed since `before`. */
  ghost predicate OnlyNext(before: System, s: System, next: nat)
    requires next < |before.nodes|
  {
    && |s.nodes| == |before.nodes|
    && (forall j | 0 <= j < |s.nodes| && j != next :: s.nodes[j] == before.nodes[j])
    && s.nodes[next].id == before.nodes[next].id
    && s.nodes[next].net == before.nodes[next].net
  }

  /** A point of the round that began in `before`. */
  ghost predicate Round(clock: Clock, before: System, s: System, settled: set<nat>, next: nat, ips: set<Word32>) {
    && Reaches(clock, before, s) && Authentic(before) && Authentic(s)
    && NextInLine(before, settled, next) && Settled(before, settled) && Settled(s, settled)
    && OnlyNext(before, s, next)
    && HeldBy(before, settled) <= ips
    && s.nodes[next].used <= before.nodes[next].used + Announced(before, next) + ips
    && AnnouncesOnly(before, s, ips)
  }

  /** What the settled nodes have in flight to `next` names only addresses they hold. */
  ghost predicate Truthful(before: System, s: System, settled: set<nat>, next: nat) {
    forall p | p in s.wire && p.from in settled && p.to == next :: p.msg.ip in HeldBy(before, settled)
  }

  /** The events of the schedule: `next` starts, times out or receives, or a settled node
      announces its address again. */
  ghost predicate Scheduled(clock: Clock, s: System, settled: set<nat>, next: nat, e: Event) {
    ByClock(clock, s, e) && if e.Reannounce? then e.i in settled else Actor(e) == next
  }

  lemma AnnouncementsAreClaims(a: Node, e: Event, out: Outgoing)
    requires out in React(a, e).outs && out.msg.AddressAnnounce?
    requires e.Begin? || e.Timeout? || e.Deliver?
    ensures Claimed(a, React(a, e).node) && out.msg.ip == a.candidate
  {
    if Releasing(a, e, out) {
      ReleasesExactly(a.candidate, a.id, a.conflicts, e.now, out);
    }
  }

  lemma UsedAfter(a: Node, e: Event)
    requires e.Begin? || e.Timeout? || e.Deliver? || e.Reannounce?
    ensures React(a, e).node.used <=
              a.used + (if e.Deliver? && e.p.msg.AddressAnnounce? then {e.p.msg.ip} else {})
    ensures React(a, e).node.net == a.net
  {}

  lemma RoundAnnounces(clock: Clock, before: System, s: System, settled: set<nat>, next: nat, ips: set<Word32>, e: Event)
    requires Round(clock, before, s, settled, next, ips) && Scheduled(clock, s, settled, next, e)
    requires Claimed(s.nodes[next], Apply(s, e).nodes[next]) ==> s.nodes[next].candidate in ips
    ensures AnnouncesOnly(before, Played(s, e), ips)
  {
    var a, outs := s.nodes[Actor(e)], React(s.nodes[Actor(e)], e).outs;
    forall p | p in Apply(s, e).wire && p.msg.AddressAnnounce? ensures p in before.wire || p.msg.ip in ips {
      WireAfter(s, e, p);
      if p !in s.wire {
        var k :| 0 <= k < |outs| && Carries(|s.nodes|, Actor(e), outs[k], p);
        if e.Reannounce? {
          assert p.msg.ip == a.localIP && a == before.nodes[e.i];
        } else {
          AnnouncementsAreClaims(a, e, outs[k]);
        }
      }
    }
  }

  /** Only the actor changes, and a node that announces its address again does not. */
  lemma PlayedNodes(s: System, e: Event)
    requires Enabled(s, e) && (e.Begin? || e.Timeout? || e.Deliver? || e.Reannounce?)
    ensures var i := Actor(e);
            && |Played(s, e).nodes| == |s.nodes|
            && (forall j | 0 <= j < |s.nodes| && j != i :: Played(s, e).nodes[j] == s.nodes[j])
            && Played(s, e).nodes[i].id == s.nodes[i].id && Played(s, e).nodes[i].net == s.nodes[i].net
            && Played(s, e).nodes[i] == React(s.nodes[i], e).node.(used := React(s.nodes[i], e).node.used + ToMark(s, e))
    ensures e.Reannounce? ==> Played(s, e).nodes == s.nodes
  {
    var i := Actor(e);
    UsedAfter(s.nodes[i], e);
    HandlerMoves(s.nodes[i], e);
    if e.Reannounce? {
      assert s.nodes[i].used + {} == s.nodes[i].used;
      assert Played(s, e).nodes[i] == s.nodes[i];
    }
  }

  lemma RoundUsed(clock: Clock, before: System, s: System, settled: set<nat>, next: nat, ips: set<Word32>, e: Event)
    requires next < |s.nodes| == |before.nodes| && Scheduled(clock, s, settled, next, e) && next !in settled
    requires AnnouncesOnly(before, s, ips)
    requires s.nodes[next].used <= before.nodes[next].used + Announced(before, next) + ips
    requires Claimed(s.nodes[next], Apply(s, e).nodes[next]) ==> s.nodes[next].candidate in ips
    ensures |Played(s, e).nodes| == |s.nodes|
    ensures Played(s, e).nodes[next].used <= before.nodes[next].used + Announced(before, next) + ips
  {
    PlayedNodes(s, e);
    if !e.Reannounce? {
      UsedAfter(s.nodes[next], e);
      MarkedIsKnown(before, s, next, ips, e);
    }
  }

  lemma MarkedIsKnown(before: System, s: System, next: nat, ips: set<Word32>, e: Event)
    requires next < |before.nodes| && Enabled(s, e) && Actor(e) == next && AnnouncesOnly(before, s, ips)
    requires Claimed(s.nodes[next], Apply(s, e).nodes[next]) ==> s.nodes[next].candidate in ips
    ensures ToMark(s, e) <= Announced(before, next) + ips
    ensures e.Deliver? && e.p.msg.AddressAnnounce? ==> ToMark(s, e) == {e.p.msg.ip}
  {
    if e.Deliver? && e.p.msg.AddressAnnounce? {
      assert e.p in before.wire || e.p.msg.ip in ips;
      assert e.p in before.wire ==> e.p.msg.ip in Announced(before, next);
    }
  }

  /** Neither authorship nor being settled depends on the used sets. */
  lemma PlayedKeeps(s: System, e: Event, settled: set<nat>)
    requires Authentic(s) && Settled(s, settled)
    requires Enabled(s, e) && (e.Begin? || e.Timeout? || e.Deliver? || e.Reannounce?)
    ensures Authentic(Played(s, e)) && Settled(Played(s, e), settled)
  {
    AuthenticStep(s, e);
    SettledStep(s, e, settled);
    var s1, i := Apply(s, e), Actor(e);
    MarkingKeeps(s1, i, s1.nodes[i].used + ToMark(s, e), settled);
  }

  lemma MarkingKeeps(s: System, i: nat, used: set<Word32>, settled: set<nat>)
    requires Authentic(s) && Settled(s, settled) && i < |s.nodes|
    ensures var s' := s.(nodes := s.nodes[i := s.nodes[i].(used := used)]);
            Authentic(s') && Settled(s', settled)
  {
    var s' := s.(nodes := s.nodes[i := s.nodes[i].(used := used)]);
    assert forall j | 0 <= j < |s.nodes| :: s'.nodes[j] == s.nodes[j].(used := s'.nodes[j].used);
    forall m, k: nat | m in settled && k < |s'.nodes| && Stronger(s', k, m) ensures k in settled {
      assert Stronger(s, k, m);
    }
    forall p | p in s'.wire ensures !Unsettling(s', settled, p) {
      assert !Unsettling(s, settled, p);
    }
  }

  lemma RoundStep(clock: Clock, before: System, s: System, settled: set<nat>, next: nat, ips: set<Word32>, e: Event)
    requires Round(clock, before, s, settled, next, ips) && Scheduled(clock, s, settled, next, e)
    requires Claimed(s.nodes[next], Apply(s, e).nodes[next]) ==> s.nodes[next].candidate in ips
    ensures Round(clock, before, Played(s, e), settled, next, ips)
  {
    assert Move(clock, s, Played(s, e));
    ReachesNext(clock, before, s, Played(s, e));
    PlayedKeeps(s, e, settled);
    RoundAnnounces(clock, before, s, settled, next, ips, e);
    PlayedNodes(s, e);
    RoundUsed(clock, before, s, settled, next, ips, e);
  }

  lemma TruthfulStep(clock: Clock, before: System, s: System, settled: set<nat>, next: nat, e: Event)
    requires Authentic(s) && Settled(before, settled) && next < |before.nodes| && next !in settled
    requires OnlyNext(before, s, next) && Scheduled(clock, s, settled, next, e)
    requires Truthful(before, s, settled, next)
    ensures Truthful(before, Played(s, e), settled, next)
  {
    forall p | p in Apply(s, e).wire && p.from in settled && p.to == next
      ensures p.msg.ip in HeldBy(before, settled)
    {
      if p !in s.wire {
        NewPackets(s, e, p);
        assert p.from == e.i && s.nodes[e.i] == before.nodes[e.i];
      }
    }
  }

  // ----- the moves of the schedule -----

  /** Everything the settled nodes have in flight to `next` is delivered; the multiset bounds
      what is left of it. */
  lemma {:induction false} Drain(clock: Clock, before: System, s: System, settled: set<nat>, next: nat, ips: set<Word32>,
                                left: multiset<Packet>)
    returns (s': System)
    requires Round(clock, before, s, settled, next, ips) && !s.nodes[next].phase.Idle?
    requires forall p: Packet | p.from in settled && p.to == next :: s.wire[p] <= left[p]
    ensures Round(clock, before, s', settled, next, ips) && !s'.nodes[next].phase.Idle?
    ensures Truthful(before, s', settled, next)
    decreases |left|
  {
    if p :| p in s.wire && p.from in settled && p.to == next {
      var e := Deliver(p, clock.other(s, next));
      DeliveredNotIdle(s, e);
      RoundStep(clock, before, s, settled, next, ips, e);
      LessInbound(s, e, settled, left);
      s' := Drain(clock, before, Played(s, e), settled, next, ips, left - multiset{p});
    } else {
      s' := s;
    }
  }

  lemma LessInbound(s: System, e: Event, settled: set<nat>, left: multiset<Packet>)
    requires Enabled(s, e) && e.Deliver? && e.p.to !in settled
    requires forall p: Packet | p.from in settled && p.to == e.p.to :: s.wire[p] <= left[p]
    ensures forall p: Packet | p.from in settled && p.to == e.p.to :: Played(s, e).wire[p] <= (left - multiset{e.p})[p]
  {
    var next := e.p.to;
    forall x: Packet | x.from in settled && x.to == next
      ensures Played(s, e).wire[x] <= (left - multiset{e.p})[x]
    {
      EmittedCarries(|s.nodes|, next, React(s.nodes[next], e).outs, x);
      assert x !in Emitted(|s.nodes|, next, React(s.nodes[next], e).outs);
    }
  }

  lemma DeliveredNotIdle(s: System, e: Event)
    requires Enabled(s, e) && e.Deliver? && !s.nodes[e.p.to].phase.Idle?
    ensures !Played(s, e).nodes[e.p.to].phase.Idle?
    ensures !Claimed(s.nodes[e.p.to], Apply(s, e).nodes[e.p.to])
  {}

  /** One event of the schedule that makes `next` claim nothing. */
  lemma QuietStep(clock: Clock, before: System, s: System, settled: set<nat>, next: nat, ips: set<Word32>, e: Event)
    requires Round(clock, before, s, settled, next, ips) && Truthful(before, s, settled, next)
    requires Scheduled(clock, s, settled, next, e) && !Claimed(s.nodes[next], Apply(s, e).nodes[next])
    ensures Round(clock, before, Played(s, e), settled, next, ips) && Truthful(before, Played(s, e), settled, next)
  {
    RoundStep(clock, before, s, settled, next, ips, e);
    TruthfulStep(clock, before, s, settled, next, e);
  }

  lemma Reannounced(s: System, m: nat, next: nat)
    requires m < |s.nodes| && next < |s.nodes| && m != next && s.nodes[m].phase.Stable?
    ensures Enabled(s, Reannounce(m)) && Apply(s, Reannounce(m)).nodes == s.nodes
    ensures Played(s, Reannounce(m)).nodes == s.nodes
    ensures Packet(m, next, AddressAnnounce(s.nodes[m].localIP, s.nodes[m].id)) in Played(s, Reannounce(m)).wire
  {
    var e := Reannounce(m);
    var p := Packet(m, next, AddressAnnounce(s.nodes[m].localIP, s.nodes[m].id));
    PlayedNodes(s, e);
    assert Carries(|s.nodes|, m, React(s.nodes[m], e).outs[0], p);
    WireAfter(s, e, p);
  }

  /** What an announcement makes of a node, marking included. */
  ghost function Informed(a: Node, e: Event): Node
    requires e.Deliver?
  {
    React(a, e).node.(used := React(a, e).node.used + {e.p.msg.ip})
  }

  lemma RemindSent(clock: Clock, before: System, s: System, settled: set<nat>, next: nat, ips: set<Word32>, m: nat)
    returns (s1: System, p: Packet)
    requires Round(clock, before, s, settled, next, ips) && Truthful(before, s, settled, next) && m in settled
    ensures Round(clock, before, s1, settled, next, ips) && Truthful(before, s1, settled, next)
    ensures s1.nodes == s.nodes && p in s1.wire && p.to == next
    ensures p.msg == AddressAnnounce(before.nodes[m].localIP, before.nodes[m].id)
  {
    p := Packet(m, next, AddressAnnounce(s.nodes[m].localIP, s.nodes[m].id));
    assert s.nodes[m] == before.nodes[m];
    Reannounced(s, m, next);
    QuietStep(clock, before, s, settled, next, ips, Reannounce(m));
    s1 := Played(s, Reannounce(m));
  }

  lemma Receive(clock: Clock, before: System, s: System, settled: set<nat>, next: nat, ips: set<Word32>, p: Packet)
    returns (s': System, e: Event)
    requires Round(clock, before, s, settled, next, ips) && Truthful(before, s, settled, next)
    requires p in s.wire && p.to == next && p.msg.AddressAnnounce? && !s.nodes[next].phase.Idle?
    ensures Round(clock, before, s', settled, next, ips) && Truthful(before, s', settled, next)
    ensures e.Deliver? && e.p == p && s'.nodes[next] == Informed(s.nodes[next], e)
  {
    e := Deliver(p, clock.other(s, next));
    DeliveredNotIdle(s, e);
    QuietStep(clock, before, s, settled, next, ips, e);
    PlayedNodes(s, e);
    s' := Played(s, e);
  }

  /** Member m announces its address again, and `next` receives it. */
  lemma Remind(clock: Clock, before: System, s: System, settled: set<nat>, next: nat, ips: set<Word32>, m: nat)
    returns (s': System, e: Event)
    requires Round(clock, before, s, settled, next, ips) && Truthful(before, s, settled, next)
    requires m in settled && !s.nodes[next].phase.Idle?
    ensures Round(clock, before, s', settled, next, ips) && Truthful(before, s', settled, next)
    ensures e.Deliver? && e.p.to == next
    ensures e.p.msg == AddressAnnounce(before.nodes[m].localIP, before.nodes[m].id)
    ensures s'.nodes[next] == Informed(s.nodes[next], e)
  {
    var s1, p := RemindSent(clock, before, s, settled, next, ips, m);
    s', e := Receive(clock, before, s1, settled, next, ips, p);
  }

  /** A prober that is reminded of an address marks it used and goes on probing. */
  lemma ProberLearns(a: Node, e: Event)
    requires a.phase.Probing? && e.Deliver? && e.p.msg.AddressAnnounce?
    ensures Informed(a, e) == a.(used := a.used + {e.p.msg.ip})
  {
    assert a.used + {e.p.msg.ip} + {e.p.msg.ip} == a.used + {e.p.msg.ip};
  }

  /** `next`, probing, is reminded of every settled address. */
  lemma {:induction false} RemindAll(clock: Clock, before: System, s: System, settled: set<nat>, next: nat, ips: set<Word32>,
                                    todo: set<nat>)
    returns (s': System)
    requires Round(clock, before, s, settled, next, ips) && Truthful(before, s, settled, next)
    requires todo <= settled && s.nodes[next].phase.Probing?
    ensures Round(clock, before, s', settled, next, ips) && Truthful(before, s', settled, next)
    ensures s'.nodes[next].phase.Probing? && s.nodes[next].used <= s'.nodes[next].used
    ensures forall m | m in todo :: m < |before.nodes| && before.nodes[m].localIP in s'.nodes[next].used
    decreases todo
  {
    s' := s;
    if m :| m in todo {
      var s1, e := Remind(clock, before, s, settled, next, ips, m);
      ProberLearns(s.nodes[next], e);
      s' := RemindAll(clock, before, s1, settled, next, ips, todo - {m});
    }
  }

  /** What a due timeout makes of a prober: it claims, or it moves on with no conflict stored. */
  lemma DueTimeout(a: Node, e: Event)
    requires e.Timeout? && TimedOut(a, e.now)
    ensures var b := React(a, e).node;
            if CanClaim(a.id, a.conflicts, e.now)
            then Claimed(a, b) && b.used == a.used
            else && b.phase.Probing? && b.conflicts == [] && b.used == a.used && !Claimed(a, b)
                 && b.candidate == NextAvailable(a.net, a.used, GenerateCandidate(a.net, a.id, Increment32(a.offset)))
  {}

  /** The probe of `next` times out, whenever its clock says it is due. */
  lemma Elapse(clock: Clock, before: System, s: System, settled: set<nat>, next: nat, ips: set<Word32>) returns (s': System)
    requires Due(clock) && Round(clock, before, s, settled, next, ips) && Truthful(before, s, settled, next)
    requires s.nodes[next].phase.Probing?
    requires CanClaim(s.nodes[next].id, s.nodes[next].conflicts, clock.timer(s, next)) ==> s.nodes[next].candidate in ips
    ensures Round(clock, before, s', settled, next, ips) && Truthful(before, s', settled, next)
    ensures Elapsed(s.nodes[next], s'.nodes[next], clock.timer(s, next))
  {
    var e := Timeout(next, clock.timer(s, next));
    DueTimeout(s.nodes[next], e);
    RoundStep(clock, before, s, settled, next, ips, e);
    TruthfulStep(clock, before, s, settled, next, e);
    ElapsedPlayed(s, e);
    s' := Played(s, e);
  }

  /** What a due timeout makes of prober a, marking included. */
  ghost predicate Elapsed(a: Node, b: Node, now: int) {
    if CanClaim(a.id, a.conflicts, now)
    then b.phase.Stable? && b.localIP == a.candidate && a.used <= b.used
    else && b.phase.Probing? && b.conflicts == [] && b.used == a.used
         && exists start :: b.candidate == NextAvailable(a.net, a.used, start)
  }

  lemma ElapsedPlayed(s: System, e: Event)
    requires Enabled(s, e) && e.Timeout? && TimedOut(s.nodes[e.i], e.now)
    ensures |Played(s, e).nodes| == |s.nodes| && Elapsed(s.nodes[e.i], Played(s, e).nodes[e.i], e.now)
  {
    DueTimeout(s.nodes[e.i], e);
    PlayedNodes(s, e);
    var a, b := s.nodes[e.i], Played(s, e).nodes[e.i];
    if !CanClaim(a.id, a.conflicts, e.now) {
      assert b.used == a.used + {};
      assert b.candidate == NextAvailable(a.net, a.used, GenerateCandidate(a.net, a.id, Increment32(a.offset)));
    }
  }

  /** `next` holds the address of member m; reminded of it, it moves on to what its search
      finds. */
  lemma GiveUp(clock: Clock, before: System, s: System, settled: set<nat>, next: nat, ips: set<Word32>, m: nat)
    returns (s': System)
    requires Round(clock, before, s, settled, next, ips) && Truthful(before, s, settled, next)
    requires s.nodes[next].phase.Stable? && m in settled && s.nodes[next].localIP == before.nodes[m].localIP
    ensures Round(clock, before, s', settled, next, ips) && Truthful(before, s', settled, next)
    ensures s'.nodes[next].phase.Probing? && s'.nodes[next].conflicts == []
    ensures exists start :: s'.nodes[next].candidate == NextAvailable(s.nodes[next].net, s.nodes[next].used, start)
  {
    var e;
    s', e := Remind(clock, before, s, settled, next, ips, m);
    StrongerMember(before, settled, next, m);
    HolderGivesUp(s.nodes[next], e);
  }

  lemma HolderGivesUp(a: Node, e: Event)
    requires a.phase.Stable? && e.Deliver? && e.p.msg.AddressAnnounce? && e.p.msg.ip == a.localIP
    requires HasPriority(e.p.msg.nodeId, a.id)
    ensures var b := Informed(a, e);
            && b.phase.Probing? && b.conflicts == []
            && b.candidate == NextAvailable(a.net, a.used, GenerateCandidate(a.net, a.id, Increment32(a.offset)))
  {
    PriorityIsStrictTotalOrder(e.p.msg.nodeId, a.id, e.p.msg.nodeId);
    assert React(a, e) == Reselect(a, e.now);
  }

  lemma StrongerMember(s: System, settled: set<nat>, next: nat, m: nat)
    requires Authentic(s) && Settled(s, settled) && NextInLine(s, settled, next) && m in settled
    ensures Stronger(s, m, next)
  {
    PriorityIsStrictTotalOrder(s.nodes[m].id, s.nodes[next].id, s.nodes[m].id);
    assert !Stronger(s, next, m);
  }

  lemma JoinUpper(s: System, settled: set<nat>, next: nat)
    requires NextInLine(s, settled, next) && Upper(s, settled)
    requires s.nodes[next].phase.Stable? && s.nodes[next].localIP !in HeldBy(s, settled)
    ensures Upper(s, settled + {next})
  {
    forall m | m in settled ensures s.nodes[m].localIP in HeldBy(s, settled) {}
  }

  lemma HeldUnchanged(before: System, s: System, settled: set<nat>, next: nat)
    requires NextInLine(before, settled, next) && OnlyNext(before, s, next) && Members(before, settled)
    ensures HeldBy(s, settled) == HeldBy(before, settled)
  {
    forall m | m in settled ensures s.nodes[m] == before.nodes[m] {}
  }

  lemma NothingUnsettles(before: System, s: System, settled: set<nat>, next: nat, p: Packet)
    requires Authentic(s) && Settled(s, settled) && Truthful(before, s, settled, next)
    requires NextInLine(s, settled, next) && Members(s, settled + {next})
    requires s.nodes[next].localIP !in HeldBy(before, settled)
    requires p in s.wire
    ensures !Unsettling(s, settled + {next}, p)
  {
    assert !Unsettling(s, settled, p);
    if p.from == next && p.to in settled {
      StrongerMember(s, settled, next, p.to);
      PriorityIsStrictTotalOrder(s.nodes[next].id, s.nodes[p.to].id, s.nodes[next].id);
    }
  }

  lemma StillInLine(before: System, s: System, settled: set<nat>, next: nat)
    requires NextInLine(before, settled, next) && OnlyNext(before, s, next)
    ensures NextInLine(s, settled, next)
  {
    forall k: nat | k < |s.nodes| && Stronger(s, k, next) ensures k in settled {
      assert Stronger(before, k, next);
    }
  }

  /** `next` holds an address of its own: it has joined the settled nodes. */
  lemma Join(clock: Clock, before: System, s: System, settled: set<nat>, next: nat, ips: set<Word32>)
    requires Round(clock, before, s, settled, next, ips) && Truthful(before, s, settled, next)
    requires s.nodes[next].phase.Stable? && s.nodes[next].localIP !in HeldBy(before, settled)
    ensures Settled(s, settled + {next})
  {
    StillInLine(before, s, settled, next);
    HeldUnchanged(before, s, settled, next);
    JoinUpper(s, settled, next);
    forall p | p in s.wire ensures !Unsettling(s, settled + {next}, p) {
      NothingUnsettles(before, s, settled, next, p);
    }
  }

  // ----- the whole round -----

  /** Some host of node i's subnet is not held, and node i neither knows it as used nor has an
      announcement of it coming. */
  ghost predicate Space(s: System, i: nat, held: set<Word32>)
    requires i < |s.nodes|
  {
    exists hostBits ::
      2 <= hostBits && s.nodes[i].net.Contiguous(hostBits) && FreeHost(s, i, hostBits, held)
  }

  ghost predicate FreeHost(s: System, i: nat, hostBits: nat, held: set<Word32>)
    requires i < |s.nodes| && s.nodes[i].net.Contiguous(hostBits)
  {
    exists host: Word32 ::
      IsHost(hostBits, host)
      && s.nodes[i].net.Address(host) !in s.nodes[i].used + Announced(s, i) + held
  }

  /** There is room for all nodes in node i's view, whatever addresses the others take. */
  ghost predicate Room(s: System, i: nat)
    requires i < |s.nodes|
  {
    forall held: set<Word32> | |held| < |s.nodes| :: Space(s, i, held)
  }

  lemma {:induction false} HostAddresses(net: Network, hostBits: nat, n: nat) returns (all: set<Word32>)
    requires net.Contiguous(hostBits) && 2 <= hostBits && n <= Pow2(hostBits) - 2
    ensures |all| == n
    ensures forall ip | ip in all :: exists host: Word32 :: 1 <= host <= n && net.Address(host) == ip
  {
    all := {};
    if n > 0 {
      Pow2Values();
      Pow2Monotonic(hostBits, 32);
      var rest := HostAddresses(net, hostBits, n - 1);
      AddressParts(net, hostBits, n);
      forall host: Word32 | 1 <= host <= n - 1 ensures net.Address(host) != net.Address(n) {
        AddressParts(net, hostBits, host);
      }
      all := rest + {net.Address(n)};
    }
  }

  /** There is room if the nodes, together with the addresses node i knows as used or has
      announcements of, do not outnumber the hosts of the subnet. */
  lemma RoomByCount(s: System, i: nat, hostBits: nat)
    requires i < |s.nodes| && s.nodes[i].net.Contiguous(hostBits) && 2 <= hostBits
    requires |s.nodes[i].used + Announced(s, i)| + |s.nodes| <= Pow2(hostBits) - 2
    ensures Room(s, i)
  {
    var net, taken := s.nodes[i].net, s.nodes[i].used + Announced(s, i);
    var all := HostAddresses(net, hostBits, Pow2(hostBits) - 2);
    forall held: set<Word32> | |held| < |s.nodes| ensures Space(s, i, held) {
      assert all - (taken + held) != {} by {
        assert all <= (all - (taken + held)) + (taken + held);
        SubsetNotLarger(all, (all - (taken + held)) + (taken + held));
      }
      var ip :| ip in all - (taken + held);
      var host: Word32 :| 1 <= host <= Pow2(hostBits) - 2 && net.Address(host) == ip;
      assert IsHost(hostBits, host);
      assert FreeHost(s, i, hostBits, held);
    }
  }

  lemma {:induction false} SubsetNotLarger<T>(some: set<T>, all: set<T>)
    requires some <= all
    ensures |some| <= |all|
  {
    assert all == some + (all - some);
  }

  /** A node that knows all the settled addresses as used finds one that is not. */
  lemma SearchAvoids(before: System, used: set<Word32>, next: nat, held: set<Word32>, start: Word32)
    requires next < |before.nodes| && Space(before, next, held)
    requires held <= used <= before.nodes[next].used + Announced(before, next) + held
    ensures NextAvailable(before.nodes[next].net, used, start) !in held
  {
    var net := before.nodes[next].net;
    var hostBits :| 2 <= hostBits && net.Contiguous(hostBits) && FreeHost(before, next, hostBits, held);
    NextAvailableComplete(net, hostBits, used, start);
  }

  lemma {:induction false} HeldSmall(s: System, settled: set<nat>)
    ensures |HeldBy(s, settled)| <= |settled|
  {
    if m :| m in settled {
      HeldSmall(s, settled - {m});
      var rest := HeldBy(s, settled - {m});
      if m < |s.nodes| {
        assert HeldBy(s, settled) == rest + {s.nodes[m].localIP};
      } else {
        assert HeldBy(s, settled) == rest;
      }
    } else {
      assert HeldBy(s, settled) == {};
    }
  }

  lemma {:induction false} IndexSetSmall(indices: set<nat>, n: nat)
    requires forall m | m in indices :: m < n
    ensures |indices| <= n
    ensures |indices| == n ==> forall m: nat | m < n :: m in indices
  {
    if n == 0 {
      assert indices == {};
    } else {
      IndexSetSmall(indices - {n - 1}, n - 1);
    }
  }

  /** More addresses may be counted as held without harm. */
  lemma Widen(clock: Clock, before: System, s: System, settled: set<nat>, next: nat, ips: set<Word32>, more: set<Word32>)
    requires Round(clock, before, s, settled, next, ips) && ips <= more
    ensures Round(clock, before, s, settled, next, more)
  {}

  /** The end of the round that began in `before`. */
  ghost predicate RoundEnds(clock: Clock, before: System, s: System, settled: set<nat>, next: nat) {
    && next < |before.nodes|
    && Reaches(clock, before, s) && Authentic(s) && Settled(s, settled + {next})
    && OnlyNext(before, s, next)
    && AnnouncesOnly(before, s, HeldBy(s, settled + {next}))
  }

  lemma FinishStable(clock: Clock, before: System, s: System, settled: set<nat>, next: nat, ips: set<Word32>)
    requires Round(clock, before, s, settled, next, ips) && Truthful(before, s, settled, next)
    requires s.nodes[next].phase.Stable? && s.nodes[next].localIP !in HeldBy(before, settled)
    requires ips <= HeldBy(before, settled) + {s.nodes[next].localIP}
    ensures RoundEnds(clock, before, s, settled, next)
  {
    Join(clock, before, s, settled, next, ips);
    HeldUnchanged(before, s, settled, next);
    assert HeldBy(s, settled + {next}) == HeldBy(s, settled) + {s.nodes[next].localIP};
  }

  /** With no conflict stored, the next due timeout claims. */
  lemma FinishFresh(clock: Clock, before: System, s: System, settled: set<nat>, next: nat) returns (s': System)
    requires Due(clock) && Round(clock, before, s, settled, next, HeldBy(before, settled)) && Truthful(before, s, settled, next)
    requires s.nodes[next].phase.Probing? && s.nodes[next].conflicts == []
    requires s.nodes[next].candidate !in HeldBy(before, settled)
    ensures RoundEnds(clock, before, s', settled, next)
  {
    var held := HeldBy(before, settled);
    var ips := held + {s.nodes[next].candidate};
    Widen(clock, before, s, settled, next, held, ips);
    s' := Elapse(clock, before, s, settled, next, ips);
    FinishStable(clock, before, s', settled, next, ips);
  }

  /** Knowing every settled address, `next` claims its candidate or moves on when its probe is
      due. If the claim is on a settled address, it is pushed off it; after either move it probes
      a free address with no conflict stored. */
  lemma FinishInformed(clock: Clock, before: System, s: System, settled: set<nat>, next: nat) returns (s': System)
    requires Due(clock) && Round(clock, before, s, settled, next, HeldBy(before, settled)) && Truthful(before, s, settled, next)
    requires s.nodes[next].phase.Probing? && HeldBy(before, settled) <= s.nodes[next].used
    requires Space(before, next, HeldBy(before, settled))
    ensures RoundEnds(clock, before, s', settled, next)
  {
    var held, a := HeldBy(before, settled), s.nodes[next];
    if !CanClaim(a.id, a.conflicts, clock.timer(s, next)) {
      var s1 := Elapse(clock, before, s, settled, next, held);
      var start :| s1.nodes[next].candidate == NextAvailable(a.net, a.used, start);
      SearchAvoids(before, a.used, next, held, start);
      s' := FinishFresh(clock, before, s1, settled, next);
    } else if a.candidate in held {
      var s1 := Elapse(clock, before, s, settled, next, held);
      s' := FinishPushed(clock, before, s1, settled, next);
    } else {
      var ips := held + {a.candidate};
      Widen(clock, before, s, settled, next, held, ips);
      s' := Elapse(clock, before, s, settled, next, ips);
      FinishStable(clock, before, s', settled, next, ips);
    }
  }

  lemma FinishPushed(clock: Clock, before: System, s: System, settled: set<nat>, next: nat) returns (s': System)
    requires Due(clock) && Round(clock, before, s, settled, next, HeldBy(before, settled)) && Truthful(before, s, settled, next)
    requires s.nodes[next].phase.Stable? && s.nodes[next].localIP in HeldBy(before, settled)
    requires HeldBy(before, settled) <= s.nodes[next].used && Space(before, next, HeldBy(before, settled))
    ensures RoundEnds(clock, before, s', settled, next)
  {
    var held := HeldBy(before, settled);
    var m :| m in settled && m < |before.nodes| && before.nodes[m].localIP == s.nodes[next].localIP;
    var s1 := GiveUp(clock, before, s, settled, next, held, m);
    var start :| s1.nodes[next].candidate == NextAvailable(s.nodes[next].net, s.nodes[next].used, start);
    SearchAvoids(before, s.nodes[next].used, next, held, start);
    s' := FinishFresh(clock, before, s1, settled, next);
  }

  lemma RoundBegins(clock: Clock, s: System, settled: set<nat>, next: nat) returns (s': System)
    requires Authentic(s) && Settled(s, settled) && NextInLine(s, settled, next)
    ensures Round(clock, s, s', settled, next, HeldBy(s, settled)) && !s'.nodes[next].phase.Idle?
  {
    ReachesSelf(clock, s);
    s' := s;
    if s.nodes[next].phase.Idle? {
      var e := Begin(next, clock.other(s, next));
      RoundStep(clock, s, s, settled, next, HeldBy(s, settled), e);
      PlayedNodes(s, e);
      s' := Played(s, e);
    }
  }

  /** From any state, the next strongest node can join the settled ones. */
  lemma NextCanJoin(clock: Clock, s: System, settled: set<nat>, next: nat) returns (s': System)
    requires Due(clock) && Authentic(s) && Settled(s, settled) && NextInLine(s, settled, next)
    requires Space(s, next, HeldBy(s, settled))
    ensures RoundEnds(clock, s, s', settled, next)
  {
    var held := HeldBy(s, settled);
    var s1 := RoundBegins(clock, s, settled, next);
    var s2 := Drain(clock, s, s1, settled, next, held, s1.wire);
    if s2.nodes[next].phase.Stable? && s2.nodes[next].localIP !in held {
      FinishStable(clock, s, s2, settled, next, held);
      s' := s2;
    } else {
      var s3 := s2;
      if s2.nodes[next].phase.Stable? {
        var m :| m in settled && m < |s.nodes| && s.nodes[m].localIP == s2.nodes[next].localIP;
        s3 := GiveUp(clock, s, s2, settled, next, held, m);
      }
      var s4 := RemindAll(clock, s, s3, settled, next, held, settled);
      s' := FinishInformed(clock, s, s4, settled, next);
    }
  }

  // ----- all rounds -----

  lemma {:induction false} StrongestOf(s: System, nodes: set<nat>) returns (g: nat)
    requires Authentic(s) && nodes != {} && forall i | i in nodes :: i < |s.nodes|
    ensures g in nodes && forall k | k in nodes && k != g :: Stronger(s, g, k)
  {
    g :| g in nodes;
    if nodes != {g} {
      var h := StrongestOf(s, nodes - {g});
      PriorityIsStrictTotalOrder(s.nodes[g].id, s.nodes[h].id, s.nodes[g].id);
      forall k | k in nodes && k != g && Stronger(s, g, h) ensures Stronger(s, g, k) {
        assert k != h ==> Stronger(s, h, k);
        PriorityIsStrictTotalOrder(s.nodes[g].id, s.nodes[h].id, s.nodes[k].id);
      }
      if Stronger(s, h, g) {
        g := h;
      }
    }
  }

  ghost function Everyone(n: nat): (all: set<nat>)
    ensures forall i: nat :: i in all <==> i < n
    ensures |all| == n
  {
    if n == 0 then {} else Everyone(n - 1) + {n - 1}
  }

  lemma Pick(s: System, settled: set<nat>) returns (next: nat)
    requires Authentic(s) && Members(s, settled) && |settled| < |s.nodes|
    ensures NextInLine(s, settled, next)
  {
    var others := Everyone(|s.nodes|) - settled;
    assert settled <= Everyone(|s.nodes|);
    assert settled + others == Everyone(|s.nodes|);
    next := StrongestOf(s, others);
    forall k: nat | k < |s.nodes| && Stronger(s, k, next) ensures k in settled {
      PriorityIsStrictTotalOrder(s.nodes[k].id, s.nodes[next].id, s.nodes[k].id);
      assert k in others ==> k == next || Stronger(s, next, k);
    }
  }

  /** Some rounds have been played since `origin`; the other nodes are as they were. */
  ghost predicate Underway(clock: Clock, origin: System, s: System, settled: set<nat>) {
    && Reaches(clock, origin, s) && Authentic(s) && Settled(s, settled)
    && |s.nodes| == |origin.nodes|
    && (forall j | 0 <= j < |s.nodes| && j !in settled :: s.nodes[j] == origin.nodes[j])
    && AnnouncesOnly(origin, s, HeldBy(s, settled))
  }

  lemma SpaceRemains(clock: Clock, origin: System, s: System, settled: set<nat>, next: nat)
    requires Underway(clock, origin, s, settled) && next < |s.nodes| && next !in settled && |settled| < |s.nodes|
    requires Room(origin, next)
    ensures Space(s, next, HeldBy(s, settled))
  {
    var held := HeldBy(s, settled);
    HeldSmall(s, settled);
    assert Space(origin, next, held);
    var hostBits :| 2 <= hostBits && origin.nodes[next].net.Contiguous(hostBits) && FreeHost(origin, next, hostBits, held);
    assert Announced(s, next) <= Announced(origin, next) + held;
    assert FreeHost(s, next, hostBits, held);
  }

  lemma UnderwayAfter(clock: Clock, origin: System, s: System, s': System, settled: set<nat>, next: nat)
    requires Underway(clock, origin, s, settled) && RoundEnds(clock, s, s', settled, next) && next !in settled
    ensures Underway(clock, origin, s', settled + {next})
  {
    ReachesTransitive(clock, origin, s, s');
    AnnouncesCompose(origin, s, s', settled, next);
  }

  lemma AnnouncesCompose(origin: System, s: System, s': System, settled: set<nat>, next: nat)
    requires next < |s.nodes| && OnlyNext(s, s', next) && next !in settled
    requires AnnouncesOnly(origin, s, HeldBy(s, settled))
    requires AnnouncesOnly(s, s', HeldBy(s', settled + {next}))
    ensures AnnouncesOnly(origin, s', HeldBy(s', settled + {next}))
  {
    forall ip | ip in HeldBy(s, settled) ensures ip in HeldBy(s', settled + {next}) {
      var m :| m in settled && m < |s.nodes| && s.nodes[m].localIP == ip;
      assert s'.nodes[m] == s.nodes[m];
    }
  }

  lemma PlayRound(clock: Clock, origin: System, s: System, settled: set<nat>) returns (s': System, next: nat)
    requires Due(clock) && Underway(clock, origin, s, settled) && |settled| < |s.nodes|
    requires forall i | 0 <= i < |origin.nodes| :: Room(origin, i)
    ensures next !in settled && Underway(clock, origin, s', settled + {next})
  {
    next := Pick(s, settled);
    SpaceRemains(clock, origin, s, settled, next);
    s' := NextCanJoin(clock, s, settled, next);
    UnderwayAfter(clock, origin, s, s', settled, next);
  }

  lemma {:induction false} PlayOn(clock: Clock, origin: System, s: System, settled: set<nat>) returns (s': System)
    requires Due(clock) && Underway(clock, origin, s, settled) && |settled| <= |s.nodes|
    requires forall i | 0 <= i < |origin.nodes| :: Room(origin, i)
    ensures Reaches(clock, origin, s') && Settled(s', Everyone(|origin.nodes|))
    decreases |s.nodes| - |settled|
  {
    if |settled| < |s.nodes| {
      var s1, next := PlayRound(clock, origin, s, settled);
      s' := PlayOn(clock, origin, s1, settled + {next});
    } else {
      IndexSetSmall(settled, |s.nodes|);
      assert settled == Everyone(|origin.nodes|);
      s' := s;
    }
  }

  /** All nodes have claimed different addresses, and no run ever takes one from any of them. */
  ghost predicate SettledForGood(s: System) {
    && Settled(s, Everyone(|s.nodes|))
    && forall trace | Run(trace) && trace[0] == s :: Unmoved(s, trace[|trace| - 1], Everyone(|s.nodes|))
  }

  /** From every state whose identities and messages are authentic, whatever is in flight and
      whatever the clocks read when probes are due, some order of events leads to a state that is
      settled for good. */
  lemma CanAlwaysSettle(clock: Clock, s: System)
    requires Due(clock) && Authentic(s) && forall i | 0 <= i < |s.nodes| :: Room(s, i)
    ensures exists s' :: Reaches(clock, s, s') && |s'.nodes| == |s.nodes| && SettledForGood(s')
  {
    ReachesSelf(clock, s);
    assert HeldBy(s, {}) == {};
    var s' := PlayOn(clock, s, s, {});
    AuthenticReached(clock, s, s');
    SettledStaySettled(s', Everyone(|s.nodes|));
    assert SettledForGood(s');
  }

  /** So no run, however unlucky, gets into a state the negotiation cannot still settle from, as
      long as there is room. */
  lemma EveryRunCanSettle(clock: Clock, trace: seq<System>, s: System)
    requires Due(clock) && Run(trace) && Initial(trace[0]) && s == trace[|trace| - 1]
    requires forall i | 0 <= i < |s.nodes| :: Room(s, i)
    ensures exists s' :: Reaches(clock, s, s') && |s'.nodes| == |trace[0].nodes| && SettledForGood(s')
  {
    AuthenticRun(trace);
    CanAlwaysSettle(clock, s);
  }

  lemma AuthenticReached(clock: Clock, s: System, s': System)
    requires Authentic(s) && Reaches(clock, s, s')
    ensures Authentic(s') && |s'.nodes| == |s.nodes|
  {
    var moves :| Moves(clock, moves) && moves[0] == s && moves[|moves| - 1] == s';
    var trace := MovesAreRuns(clock, moves);
    AuthenticRun(trace);
  }
}
