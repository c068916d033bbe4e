/** The heartbeat loop against the lease: how far apart a node's heartbeats are, and
    why a peer that hears enough of them never lets the node's lease run out. */
module LeaseTiming {
  import opened Heartbeat
  import opened NodeIdentity
  import Words

  /** The loop sleeps 1000 ms; a wake-up comes at most `slack` later than that. */
  const SLEEP_MS: int := 1000

  /** At each wake-up, a heartbeat goes out when the last one is an interval old. */
  function Sends(wakes: seq<int>, last: int): seq<int> {
    if wakes == [] then []
    else if wakes[0] - last >= HEARTBEAT_INTERVAL_MS then [wakes[0]] + Sends(wakes[1..], wakes[0])
    else Sends(wakes[1..], last)
  }

  /** The time of the last heartbeat once these have gone out. */
  ghost function LastSent(last: int, sends: seq<int>): int {
    ([last] + sends)[|sends|]
  }

  /** Wake-up by wake-up: a heartbeat goes out exactly at those at least a minute after the last
      one, so after any wake-ups none is overdue. */
  lemma {:induction false} SendsExactly(wakes: seq<int>, last: int)
    ensures Sends([], last) == []
    ensures wakes != [] ==>
              var n := |wakes| - 1;
              var before := Sends(wakes[..n], last);
              && Sends(wakes, last) ==
                   (if wakes[n] - LastSent(last, before) >= 60_000 then before + [wakes[n]] else before)
              && wakes[n] - LastSent(last, Sends(wakes, last)) < 60_000
  {
    if |wakes| > 1 {
      var n := |wakes| - 1;
      var next := if wakes[0] - last >= 60_000 then wakes[0] else last;
      assert wakes[1..][..n - 1] == wakes[..n][1..];
      SendsExactly(wakes[1..], next);
    } else if |wakes| == 1 {
      assert wakes[..0] == [] && wakes[1..] == [];
    }
  }

  class HeartbeatSender {
    var localIP: Words.Word32
    var lastHeartbeatSent: int

    constructor (localIP: Words.Word32, now: int)
      ensures this.localIP == localIP && lastHeartbeatSent == now
    {
      this.localIP, lastHeartbeatSent := localIP, now;
    }

    /** The loop, given the times it wakes up at; returns the times heartbeats go out. */
    method HeartbeatLoop(wakes: seq<int>) returns (sends: seq<int>)
      modifies this`lastHeartbeatSent
      ensures sends == if localIP != 0 then Sends(wakes, old(lastHeartbeatSent)) else []
      ensures lastHeartbeatSent == LastSent(old(lastHeartbeatSent), sends)
      ensures localIP != 0 && wakes != [] ==> wakes[|wakes| - 1] - lastHeartbeatSent < 60_000
    {
      SendsExactly(wakes, lastHeartbeatSent);
      sends := [];
      assert wakes[0..] == wakes;
      for i := 0 to |wakes|
        invariant localIP != 0 ==>
                    Sends(wakes, old(lastHeartbeatSent)) == sends + Sends(wakes[i..], lastHeartbeatSent)
        invariant localIP == 0 ==> sends == []
        invariant lastHeartbeatSent == LastSent(old(lastHeartbeatSent), sends)
      {
        var now := wakes[i];
        assert wakes[i..][1..] == wakes[i + 1..];
        if now - lastHeartbeatSent >= HEARTBEAT_INTERVAL_MS && localIP != 0 {
          sends := sends + [now];
          lastHeartbeatSent := now;
        }
      }
    }
  }

  ghost predicate Punctual(wakes: seq<int>, slack: int) {
    forall k | 0 <= k < |wakes| - 1 :: wakes[k] < wakes[k + 1] <= wakes[k] + SLEEP_MS + slack
  }

  ghost predicate Spaced(sends: seq<int>, least: int, most: int) {
    forall k | 0 <= k < |sends| - 1 :: least <= sends[k + 1] - sends[k] < most
  }

  /** `previous` is the wake-up before these, when the last heartbeat was not yet an
      interval old; so the next one goes out less than one wake-up late. */
  lemma {:induction false} SendsSpaced(wakes: seq<int>, previous: int, last: int, slack: int)
    requires Punctual([previous] + wakes, slack) && slack >= 0
    requires last <= previous < last + HEARTBEAT_INTERVAL_MS
    ensures Spaced([last] + Sends(wakes, last), HEARTBEAT_INTERVAL_MS, HEARTBEAT_INTERVAL_MS + SLEEP_MS + slack)
  {
    if wakes != [] {
      var now := wakes[0];
      var all := [previous] + wakes;
      assert all[0] < all[0 + 1] <= all[0] + SLEEP_MS + slack;
      forall k | 0 <= k < |[now] + wakes[1..]| - 1
        ensures var w := [now] + wakes[1..]; w[k] < w[k + 1] <= w[k] + SLEEP_MS + slack
      {
        assert all[k + 1] < all[k + 1 + 1] <= all[k + 1] + SLEEP_MS + slack;
      }
      if now - last >= HEARTBEAT_INTERVAL_MS {
        SendsSpaced(wakes[1..], now, now, slack);
        SpacedCons(last, Sends(wakes, last), HEARTBEAT_INTERVAL_MS, HEARTBEAT_INTERVAL_MS + SLEEP_MS + slack);
      } else {
        SendsSpaced(wakes[1..], now, last, slack);
      }
    }
  }

  lemma SpacedCons(first: int, rest: seq<int>, least: int, most: int)
    requires rest != [] && Spaced(rest, least, most) && least <= rest[0] - first < most
    ensures Spaced([first] + rest, least, most)
  {
    var all := [first] + rest;
    forall k | 0 <= k < |all| - 1 ensures least <= all[k + 1] - all[k] < most {
      if k > 0 {
        assert least <= rest[k - 1 + 1] - rest[k - 1] < most;
      }
    }
  }

  /** Which heartbeats a peer hears, and when. Delays lie between quickest and
      quickest + variation, and at most four heartbeats in a row are missed. */
  ghost predicate Hears(sends: seq<int>, heard: seq<nat>, arrivals: seq<int>, quickest: int, variation: int) {
    && |heard| == |arrivals|
    && (forall j | 0 <= j < |heard| ::
          heard[j] < |sends| && sends[heard[j]] + quickest <= arrivals[j] <= sends[heard[j]] + quickest + variation)
    && (forall j | 0 <= j < |heard| - 1 :: heard[j] < heard[j + 1] <= heard[j] + 5)
  }

  lemma {:induction false} SpacedSpan(sends: seq<int>, i: nat, n: nat, least: int, most: int)
    requires Spaced(sends, least, most) && i + n < |sends|
    ensures n * least <= sends[i + n] - sends[i] <= n * most
  {
    if n > 0 {
      SpacedSpan(sends, i, n - 1, least, most);
      assert sends[i + n - 1 + 1] - sends[i + n - 1] < most;
      assert n * least == (n - 1) * least + least && n * most == (n - 1) * most + most;
    }
  }

  lemma NextArrival(sends: seq<int>, heard: seq<nat>, arrivals: seq<int>, quickest: int, variation: int, most: int, j: nat)
    requires Spaced(sends, HEARTBEAT_INTERVAL_MS, most) && most > 0
    requires Hears(sends, heard, arrivals, quickest, variation) && j + 1 < |heard|
    ensures arrivals[j + 1] <= arrivals[j] + 5 * most + variation
  {
    var i, n := heard[j], heard[j + 1] - heard[j];
    assert heard[j] < heard[j + 1] <= heard[j] + 5;
    SpacedSpan(sends, i, n, HEARTBEAT_INTERVAL_MS, most);
    assert n * most <= 5 * most;
  }

  lemma Crossing(arrivals: seq<int>, a: nat, now: int) returns (j: nat)
    requires a < |arrivals| && arrivals[a] <= now < arrivals[|arrivals| - 1]
    ensures a <= j && j + 1 < |arrivals| && arrivals[j] <= now < arrivals[j + 1]
  {
    j := a;
    while arrivals[j + 1] <= now
      invariant a <= j && j + 1 < |arrivals| && arrivals[j] <= now
      decreases |arrivals| - j
    {
      j := j + 1;
    }
  }

  /** Between the first and the last heartbeat a peer hears from a node, the lease never
      runs out, provided five send gaps and the spread of the delays fit into it. */
  lemma LivePeerKeepsLease(wakes: seq<int>, start: int, slack: int,
                           heard: seq<nat>, arrivals: seq<int>, quickest: int, variation: int,
                           info: NodeInfo, now: int)
    requires slack >= 0 && Punctual([start] + wakes, slack)
    requires Hears([start] + Sends(wakes, start), heard, arrivals, quickest, variation)
    requires 5 * (61_000 + slack) + variation < LEASE_EXPIRY_MS
    requires (exists a :: 0 <= a < |arrivals| && arrivals[a] <= now) && now < arrivals[|arrivals| - 1]
    // every heartbeat handled so far has renewed the lease
    requires forall a | 0 <= a < |arrivals| && arrivals[a] <= now :: info.lastHeartbeat >= arrivals[a]
    ensures !LeaseExpired(info, now)
  {
    var sends := [start] + Sends(wakes, start);
    SendsSpaced(wakes, start, start, slack);
    var a :| 0 <= a < |arrivals| && arrivals[a] <= now;
    var j := Crossing(arrivals, a, now);
    NextArrival(sends, heard, arrivals, quickest, variation, 61_000 + slack, j);
  }

  // ----- over a history of the node table -----

  /** An event of the node table and the time it happens. */
  datatype Stamped = Stamped(time: int, event: Event)

  function Events(history: seq<Stamped>): seq<Event> {
    seq(|history|, k requires 0 <= k < |history| => history[k].event)
  }

  /** Time does not run backwards, and events carry the time they happen at. */
  ghost predicate Timely(history: seq<Stamped>) {
    && (forall k | 0 <= k < |history| - 1 :: history[k].time <= history[k + 1].time)
    && (forall k | 0 <= k < |history| :: OnTime(history[k]))
  }

  predicate OnTime(x: Stamped) {
    match x.event
    case Register(_, info) => info.lastHeartbeat == x.time
    case Beat(_, info) => info.lastHeartbeat == x.time
    case Unregister(_) => true
    case Sweep(now) => now == x.time
  }

  /** When the heartbeats of a node are handled. */
  function Beats(history: seq<Stamped>, id: NodeID): seq<int> {
    if history == [] then []
    else
      var n := |history| - 1;
      var before := Beats(history[..n], id);
      if history[n].event.Beat? && history[n].event.id == id then before + [history[n].time] else before
  }

  lemma {:induction false} BeatsOfPrefix(history: seq<Stamped>, n: nat, id: NodeID)
    requires n <= |history|
    ensures Beats(history[..n], id) <= Beats(history, id)
  {
    if n < |history| {
      var m := |history| - 1;
      BeatsOfPrefix(history[..m], n, id);
      assert history[..m][..n] == history[..n];
    } else {
      assert history[..n] == history;
    }
  }

  /** The first heartbeat after a prefix is handled no earlier than anything in it. */
  lemma {:induction false} LaterBeat(history: seq<Stamped>, n: nat, id: NodeID)
    requires Timely(history) && 0 < n <= |history|
    requires |Beats(history[..n], id)| < |Beats(history, id)|
    ensures history[n - 1].time <= Beats(history, id)[|Beats(history[..n], id)|]
  {
    var m := |history| - 1;
    assert history[..m + 1] == history;
    if n <= m {
      var shorter := history[..m];
      assert shorter[..n] == history[..n];
      assert Timely(shorter);
      if |Beats(history[..n], id)| < |Beats(shorter, id)| {
        LaterBeat(shorter, n, id);
        BeatsOfPrefix(shorter, n, id);
      } else {
        BeatsOfPrefix(shorter, n, id);
        TimesAscend(history, n - 1, m);
      }
    }
  }

  lemma {:induction false} TimesAscend(history: seq<Stamped>, i: nat, j: nat)
    requires Timely(history) && i <= j < |history|
    ensures history[i].time <= history[j].time
  {
    if i < j {
      TimesAscend(history, i, j - 1);
      assert history[j - 1].time <= history[j - 1 + 1].time;
    }
  }

  /** A node that has been heard of is in the table, renewed by its last heartbeat. */
  ghost predicate Alive(t: Tables, beats: seq<int>, id: NodeID) {
    beats != [] ==> id in t.nodes && beats[|beats| - 1] <= t.nodes[id].lastHeartbeat
  }

  lemma AliveStep(t: Tables, x: Stamped, beats: seq<int>, id: NodeID)
    requires Alive(t, beats, id) && OnTime(x) && x.event != Unregister(id)
    requires beats != [] ==> beats[|beats| - 1] <= x.time
    requires x.event.Sweep? && beats != [] ==> x.time < beats[|beats| - 1] + LEASE_EXPIRY_MS
    ensures Alive(Next(t, x.event), if x.event.Beat? && x.event.id == id then beats + [x.time] else beats, id)
  {}

  /** Gaps between the heartbeats heard, and from each to the next. */
  ghost predicate Regular(beats: seq<int>) {
    forall j | 0 <= j < |beats| - 1 :: beats[j + 1] < beats[j] + LEASE_EXPIRY_MS
  }

  lemma BeatHappened(history: seq<Stamped>, id: NodeID, x: Stamped)
    requires Timely(history + [x]) && Beats(history, id) != []
    ensures var beats := Beats(history, id); beats[|beats| - 1] <= x.time
  {
    var all, n := history + [x], |history|;
    LastBeat(history, id);
    var k :| 0 <= k < n && history[k].time == Beats(history, id)[|Beats(history, id)| - 1];
    assert all[k] == history[k];
    TimesAscend(all, k, n);
  }

  lemma {:induction false} LastBeat(history: seq<Stamped>, id: NodeID)
    requires Beats(history, id) != []
    ensures exists k :: 0 <= k < |history| && history[k].time == Beats(history, id)[|Beats(history, id)| - 1]
  {
    var n := |history| - 1;
    if history[n].event.Beat? && history[n].event.id == id {
      assert history[n].time == Beats(history, id)[|Beats(history, id)| - 1];
    } else {
      LastBeat(history[..n], id);
      var k :| 0 <= k < n && history[..n][k].time == Beats(history[..n], id)[|Beats(history[..n], id)| - 1];
      assert history[k].time == Beats(history, id)[|Beats(history, id)| - 1];
    }
  }

  lemma AfterOneMore(history: seq<Stamped>, x: Stamped)
    ensures After(EMPTY, Events(history + [x])) == Next(After(EMPTY, Events(history)), x.event)
  {
    assert Events(history + [x]) == Events(history) + [x.event];
    assert (Events(history) + [x.event])[..|history|] == Events(history);
  }

  lemma BeatsOneMore(history: seq<Stamped>, x: Stamped, id: NodeID)
    ensures Beats(history + [x], id) ==
              if x.event.Beat? && x.event.id == id then Beats(history, id) + [x.time] else Beats(history, id)
  {
    assert (history + [x])[..|history|] == history;
  }

  lemma NeverUnregistered(history: seq<Stamped>, k: nat, id: NodeID)
    requires Timely(history) && k < |history| && Unregister(id) !in Events(history)
    ensures history[k].event != Unregister(id) && OnTime(history[k])
  {
    assert Events(history)[k] == history[k].event;
  }

  lemma AliveOneMore(history: seq<Stamped>, x: Stamped, id: NodeID)
    requires Alive(After(EMPTY, Events(history)), Beats(history, id), id) && OnTime(x) && x.event != Unregister(id)
    requires var beats := Beats(history, id);
             beats != [] ==> beats[|beats| - 1] <= x.time < beats[|beats| - 1] + LEASE_EXPIRY_MS
    ensures Alive(After(EMPTY, Events(history + [x])), Beats(history + [x], id), id)
  {
    AliveStep(After(EMPTY, Events(history)), x, Beats(history, id), id);
    AfterOneMore(history, x);
    BeatsOneMore(history, x, id);
  }

  /** What happens before the next heartbeat happens within the lease. */
  lemma WithinLease(history: seq<Stamped>, n: nat, id: NodeID)
    requires Timely(history) && n < |history| && Regular(Beats(history, id))
    requires Beats(history[..n], id) != [] && |Beats(history[..n + 1], id)| < |Beats(history, id)|
    ensures var beats := Beats(history[..n], id);
            beats[|beats| - 1] <= history[n].time < beats[|beats| - 1] + LEASE_EXPIRY_MS
  {
    var before, x, all := history[..n], history[n], Beats(history, id);
    var beats := Beats(before, id);
    assert history[..n + 1] == before + [x] && Timely(before + [x]);
    BeatHappened(before, id, x);
    BeatsOneMore(before, x, id);
    BeatsOfPrefix(history, n, id);
    BeatsOfPrefix(history, n + 1, id);
    LaterBeat(history, n + 1, id);
    var i := |beats| - 1;
    assert all[i + 1] < all[i] + LEASE_EXPIRY_MS;
    if |Beats(before + [x], id)| > |beats| {
      assert x.time == all[i + 1];
    }
  }

  /** Between the first and the last heartbeat heard, a node with regular heartbeats is never
      missing from the table. */
  lemma {:induction false} RegularNeverEvicted(history: seq<Stamped>, n: nat, id: NodeID)
    requires Timely(history) && n <= |history| && Unregister(id) !in Events(history)
    requires Regular(Beats(history, id)) && |Beats(history[..n], id)| < |Beats(history, id)|
    ensures Alive(After(EMPTY, Events(history[..n])), Beats(history[..n], id), id)
  {
    if n > 0 {
      var before, x := history[..n - 1], history[n - 1];
      assert history[..n] == before + [x];
      BeatsOneMore(before, x, id);
      RegularNeverEvicted(history, n - 1, id);
      if Beats(before, id) != [] {
        WithinLease(history, n - 1, id);
      }
      NeverUnregistered(history, n - 1, id);
      AliveOneMore(before, x, id);
    }
  }

  /** In any history of the node table in which a live node's heartbeats arrive, at most four in a
      row missing and five send gaps plus the spread of the delays within the lease, no sweep ever
      evicts it between its first and its last heartbeat. */
  lemma LiveNodeNeverEvicted(wakes: seq<int>, start: int, slack: int, heard: seq<nat>, quickest: int, variation: int,
                             history: seq<Stamped>, n: nat, id: NodeID)
    requires slack >= 0 && Punctual([start] + wakes, slack)
    requires Timely(history) && n <= |history| && Unregister(id) !in Events(history)
    requires Hears([start] + Sends(wakes, start), heard, Beats(history, id), quickest, variation)
    requires 5 * (61_000 + slack) + variation < LEASE_EXPIRY_MS
    requires 0 < |Beats(history[..n], id)| < |Beats(history, id)|
    ensures id in After(EMPTY, Events(history[..n])).nodes
  {
    var beats := Beats(history, id);
    SendsSpaced(wakes, start, start, slack);
    forall j | 0 <= j < |beats| - 1 ensures beats[j + 1] < beats[j] + LEASE_EXPIRY_MS {
      NextArrival([start] + Sends(wakes, start), heard, beats, quickest, variation, 61_000 + slack, j);
    }
    RegularNeverEvicted(history, n, id);
  }
}
