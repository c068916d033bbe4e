/** What the members learn from the host's ping broadcast, for every list of pings: the printed
    relays are cut at semicolons, and what follows one is read as a record of its own. */
module PingRoundTrip {
  import opened Options
  import opened Words
  import opened PingMessages

  /** What the members are meant to learn: the last known ping of each real id. */
  function Learned(table: Table, pings: seq<Ping>, now: int): Table {
    if pings == [] then table
    else
      var p := pings[|pings| - 1];
      var before := Learned(table, pings[..|pings| - 1], now);
      if p.ping >= 0 && p.id > 0 then before[p.id := PingInfo(p.ping, p.relay, now)] else before
  }

  lemma FindAt(s: string, c: char, from: nat, i: nat)
    requires from <= i < |s| && s[i] == c && forall k | from <= k < i :: s[k] != c
    ensures Find(s, c, from) == i
  {}

  /** The colons of a printed part, and what lies between them. */
  lemma PrintedFields(p: Ping)
    requires p.ping >= 0
    ensures var part := PrintedPart(p);
            var first := |ToDecimal(p.id)|;
            var second := first + 1 + |ToDecimal(p.ping)|;
            && first < second < |part|
            && Find(part, ':', 0) == first && Find(part, ':', first + 1) == second
            && part[..first] == ToDecimal(p.id) && part[first + 1..second] == ToDecimal(p.ping)
            && part[second + 1..] == p.relay
  {
    var id, ping, part := ToDecimal(p.id), ToDecimal(p.ping), PrintedPart(p);
    var first := |id|;
    var second := first + 1 + |ping|;
    assert part[..first] == id;
    assert part[first + 1..second] == ping;
    assert part[second + 1..] == p.relay;
    forall k | 0 <= k < first ensures part[k] != ':' {
      assert part[k] in id;
    }
    FindAt(part, ':', 0, first);
    forall k | first + 1 <= k < second ensures part[k] != ':' {
      assert part[k] in ping;
    }
    FindAt(part, ':', first + 1, second);
  }

  lemma AcceptPrinted(table: Table, p: Ping, now: int)
    requires p.ping >= 0
    ensures Accept(table, PrintedPart(p), now) ==
              if p.id > 0 then table[p.id := PingInfo(p.ping, p.relay, now)] else table
  {
    PrintedFields(p);
    PrintedNumbers(p);
    var first := |ToDecimal(p.id)|;
    AcceptFields(table, PrintedPart(p), now, first, first + 1 + |ToDecimal(p.ping)|);
  }

  lemma PrintedNumbers(p: Ping)
    requires p.ping >= 0
    ensures ParseUnsigned64(ToDecimal(p.id)) == Some(p.id)
    ensures ParseInt32(ToDecimal(p.ping)) == Some(p.ping)
  {
    PrintedFits(p.id);
    PrintedFits(p.ping);
  }

  lemma PrintedFits(n: nat)
    ensures n < TWO_64 ==> ParseUnsigned64(ToDecimal(n)) == Some(n)
    ensures n < 0x8000_0000 ==> ParseInt32(ToDecimal(n)) == Some(n)
  {
    ParsePrinted(n);
    ValueFits(ToDecimal(n), n);
  }

  lemma ValueFits(s: string, n: nat)
    requires ParseInteger(s) == Some(n)
    ensures n < TWO_64 ==> ParseUnsigned64(s) == Some(n)
    ensures n < 0x8000_0000 ==> ParseInt32(s) == Some(n)
  {}

  lemma AcceptFields(table: Table, part: string, now: int, first: nat, second: nat)
    requires first < second < |part|
    requires Find(part, ':', 0) == first && Find(part, ':', first + 1) == second
    ensures Accept(table, part, now) ==
              match (ParseUnsigned64(part[..first]), ParseInt32(part[first + 1..second]))
              case (Some(id), Some(ping)) =>
                if id > 0 && ping >= 0 then table[id := PingInfo(ping, part[second + 1..], now)] else table
              case _ => table
  {}

  lemma FindBefore(s: string, rest: string, c: char, from: nat)
    requires from <= |s|
    ensures Find(s + [c] + rest, c, from) == Find(s, c, from)
  {
    var i := Find(s, c, from);
    var t := s + [c] + rest;
    forall k | from <= k < i ensures t[k] != c {
      assert t[k] == s[k];
    }
    FindAt(t, c, from, i);
  }

  lemma FindAfter(s: string, t: string, c: char, from: nat)
    requires from <= |t|
    ensures Find(s + t, c, |s| + from) == |s| + Find(t, c, from)
  {
    var i, all := Find(t, c, from), s + t;
    forall k | |s| + from <= k < |s| + i ensures all[k] != c {
      assert all[k] == t[k - |s|];
    }
    if i < |t| {
      FindAt(all, c, |s| + from, |s| + i);
    } else {
      FindNowhere(all, c, |s| + from);
    }
  }

  lemma FindNowhere(s: string, c: char, from: nat)
    requires from <= |s| && forall k | from <= k < |s| :: s[k] != c
    ensures Find(s, c, from) == |s|
  {}

  lemma {:induction false} FoldAfter<T>(f: (T, string) -> T, init: T, s: string, t: string, from: nat)
    requires from <= |t|
    ensures FoldPieces(f, init, s + t, |s| + from) == FoldPieces(f, init, t, from)
    decreases |t| - from
  {
    var all, next := s + t, Find(t, ';', from);
    FindAfter(s, t, ';', from);
    assert all[|s| + from..|s| + next] == t[from..next];
    if next < |t| {
      FoldAfter(f, f(init, t[from..next]), s, t, next + 1);
    }
  }

  /** Texts joined by a semicolon are worked through one after the other. */
  lemma {:induction false} FoldJoin<T>(f: (T, string) -> T, init: T, s: string, t: string, start: nat)
    requires start <= |s|
    ensures FoldPieces(f, init, s + ";" + t, start) == FoldPieces(f, FoldPieces(f, init, s, start), t, 0)
    decreases |s| - start
  {
    var all, next := s + ";" + t, Find(s, ';', start);
    FindBefore(s, t, ';', start);
    assert all[start..next] == s[start..next];
    var after := f(init, s[start..next]);
    if next == |s| {
      FoldAfter(f, after, s + ";", t, 0);
    } else {
      FoldJoin(f, after, s, t, next + 1);
    }
  }

  // ----- what a text teaches -----

  /** The records of a text, the last one of each id: what it teaches an empty table. */
  function Told(text: string, now: int): Table {
    Rest(map[], text, 0, now)
  }

  lemma AcceptMerges(table: Table, part: string, now: int)
    ensures Accept(table, part, now) == table + Accept(map[], part, now)
  {}

  predicate Associates<T(==)>(plus: (T, T) -> T, a: T, b: T, c: T) {
    plus(plus(a, b), c) == plus(a, plus(b, c))
  }

  predicate AddsOne<T(==)>(f: (T, string) -> T, plus: (T, T) -> T, zero: T, t: T, part: string) {
    f(t, part) == plus(t, f(zero, part))
  }

  /** f adds to what it is given what it makes of the part alone. */
  ghost predicate Adds<T(!new)>(f: (T, string) -> T, plus: (T, T) -> T, zero: T) {
    && (forall t, part :: AddsOne(f, plus, zero, t, part))
    && (forall a, b, c :: Associates(plus, a, b, c))
  }

  lemma {:induction false} FoldAdds<T(!new)>(f: (T, string) -> T, plus: (T, T) -> T, zero: T, init: T, data: string, start: nat)
    requires start <= |data| && Adds(f, plus, zero)
    ensures FoldPieces(f, init, data, start) == plus(init, FoldPieces(f, zero, data, start))
    decreases |data| - start
  {
    var next := Find(data, ';', start);
    var one := f(zero, data[start..next]);
    assert AddsOne(f, plus, zero, init, data[start..next]);
    FoldPiecesStep(f, init, data, start, next, plus(init, one));
    FoldPiecesStep(f, zero, data, start, next, one);
    if next < |data| {
      FoldAdds(f, plus, zero, plus(init, one), data, next + 1);
      FoldAdds(f, plus, zero, one, data, next + 1);
      assert Associates(plus, init, one, FoldPieces(f, zero, data, next + 1));
    }
  }

  lemma RestMerges(table: Table, data: string, start: nat, now: int)
    requires start <= |data|
    ensures Rest(table, data, start, now) == table + Rest(map[], data, start, now)
  {
    var f, plus := Acceptor(now), (a: Table, b: Table) => a + b;
    forall t, part ensures AddsOne(f, plus, map[], t, part) {
      AcceptMerges(t, part, now);
    }
    forall a, b, c ensures Associates(plus, a, b, c) {
      assert a + b + c == a + (b + c);
    }
    FoldAdds(f, plus, map[], table, data, start);
  }

  /** The relay up to its first semicolon. */
  function Head(relay: string): string {
    relay[..Find(relay, ';', 0)]
  }

  function Own(p: Ping, now: int): Table {
    if p.id > 0 then map[p.id := PingInfo(p.ping, Head(p.relay), now)] else map[]
  }

  /** The records in what follows the first semicolon of a relay. */
  function Spilled(p: Ping, now: int): Table {
    var i := Find(p.relay, ';', 0);
    if i < |p.relay| then Told(p.relay[i + 1..], now) else map[]
  }

  function Taught(pings: seq<Ping>, now: int): Table {
    if pings == [] then map[]
    else
      var n := |pings| - 1;
      var before := Taught(pings[..n], now);
      if pings[n].ping >= 0 then before + Own(pings[n], now) + Spilled(pings[n], now) else before
  }

  lemma HeadClean(relay: string)
    ensures ';' !in Head(relay)
    ensures Head(relay) == relay <==> ';' !in relay
  {
    var i := Find(relay, ';', 0);
    if i < |relay| {
      assert relay[i] in relay;
    } else {
      assert relay[..i] == relay;
    }
  }

  lemma PrintedClean(p: Ping)
    requires p.ping >= 0 && ';' !in p.relay
    ensures ';' !in PrintedPart(p)
  {
    var id, ping := ToDecimal(p.id), ToDecimal(p.ping);
    assert ';' !in id && ';' !in ping;
  }

  lemma CleanPartTold(p: Ping, now: int)
    requires p.ping >= 0 && ';' !in p.relay
    ensures Told(PrintedPart(p), now) == Own(p, now)
  {
    var part := PrintedPart(p);
    PrintedClean(p);
    FindNowhere(part, ';', 0);
    assert part[0..|part|] == part;
    AcceptPrinted(map[], p, now);
    HeadClean(p.relay);
  }

  lemma PartTold(p: Ping, now: int)
    requires p.ping >= 0
    ensures Told(PrintedPart(p), now) == Own(p, now) + Spilled(p, now)
  {
    var i := Find(p.relay, ';', 0);
    HeadClean(p.relay);
    if i == |p.relay| {
      CleanPartTold(p, now);
    } else {
      var q, tail := p.(relay := Head(p.relay)), p.relay[i + 1..];
      HeadClean(q.relay);
      assert p.relay == q.relay + ";" + tail;
      assert PrintedPart(p) == PrintedPart(q) + ";" + tail;
      JoinTold(PrintedPart(q), tail, now);
      CleanPartTold(q, now);
    }
  }

  lemma JoinTold(s: string, t: string, now: int)
    ensures Told(s + ";" + t, now) == Told(s, now) + Told(t, now)
  {
    FoldJoin(Acceptor(now), map[], s, t, 0);
    RestMerges(Told(s, now), t, 0, now);
  }

  lemma JoinAppend(parts: seq<string>, part: string)
    ensures Join(parts + [part]) == if parts == [] then part else Join(parts) + ";" + part
  {
    assert (parts + [part])[..|parts|] == parts;
  }

  lemma {:induction false} JoinedTold(pings: seq<Ping>, now: int)
    requires Parts(pings) != []
    ensures Told(Join(Parts(pings)), now) == Taught(pings, now)
  {
    var n := |pings| - 1;
    var p, parts := pings[n], Parts(pings[..n]);
    if p.ping < 0 {
      assert Parts(pings) == parts;
      JoinedTold(pings[..n], now);
    } else {
      PartTold(p, now);
      JoinAppend(parts, PrintedPart(p));
      if parts == [] {
        NothingTaught(pings[..n], now);
      } else {
        JoinedTold(pings[..n], now);
        JoinTold(Join(parts), PrintedPart(p), now);
        TaughtOneMore(pings, now);
      }
    }
  }

  lemma TaughtOneMore(pings: seq<Ping>, now: int)
    requires pings != [] && pings[|pings| - 1].ping >= 0
    ensures var n := |pings| - 1;
            Taught(pings, now) == Taught(pings[..n], now) + (Own(pings[n], now) + Spilled(pings[n], now))
  {}

  lemma {:induction false} NothingTaught(pings: seq<Ping>, now: int)
    requires Parts(pings) == []
    ensures Taught(pings, now) == map[]
  {
    if pings != [] {
      NothingTaught(pings[..|pings| - 1], now);
    }
  }

  /** Whatever the relays contain, a member that parses the host's message stores for each ping
      in turn its relay up to the first semicolon, and then the records that follow it. */
  lemma MessageTeaches(table: Table, pings: seq<Ping>, now: int)
    requires Parts(pings) != []
    ensures Received(table, PREFIX + Join(Parts(pings)), now) == table + Taught(pings, now)
  {
    var text := Join(Parts(pings));
    assert (PREFIX + text)[|PREFIX|..] == text;
    JoinedTold(pings, now);
    RestMerges(table, text, 0, now);
  }

  // ----- when the pings come through -----

  lemma {:induction false} LearnedMerges(table: Table, pings: seq<Ping>, now: int)
    ensures Learned(table, pings, now) == table + Learned(map[], pings, now)
  {
    if pings != [] {
      LearnedMerges(table, pings[..|pings| - 1], now);
    }
  }

  /** Like what is to be learned, with the relays cut at their first semicolon. */
  function Heads(pings: seq<Ping>, now: int): Table {
    if pings == [] then map[]
    else
      var n := |pings| - 1;
      var before := Heads(pings[..n], now);
      if pings[n].ping >= 0 then before + Own(pings[n], now) else before
  }

  /** The records spilled by relays that no later ping of the same id overwrites. */
  function Intruders(pings: seq<Ping>, now: int): Table {
    if pings == [] then map[]
    else
      var n := |pings| - 1;
      var before := Intruders(pings[..n], now);
      if pings[n].ping >= 0
      then (before - Own(pings[n], now).Keys) + Spilled(pings[n], now)
      else before
  }

  lemma Overlay(heads: Table, intruders: Table, own: Table, spilled: Table)
    ensures heads + intruders + own + spilled == heads + own + ((intruders - own.Keys) + spilled)
  {}

  lemma {:induction false} TaughtSplits(pings: seq<Ping>, now: int)
    ensures Taught(pings, now) == Heads(pings, now) + Intruders(pings, now)
  {
    if pings != [] {
      var n := |pings| - 1;
      TaughtSplits(pings[..n], now);
      if pings[n].ping >= 0 {
        Overlay(Heads(pings[..n], now), Intruders(pings[..n], now), Own(pings[n], now), Spilled(pings[n], now));
      }
    }
  }

  lemma {:induction false} HeadsCut(pings: seq<Ping>, now: int)
    ensures var heads, whole := Heads(pings, now), Learned(map[], pings, now);
            && heads.Keys == whole.Keys
            && forall id | id in whole :: heads[id] == whole[id].(relay := Head(whole[id].relay))
  {
    if pings != [] {
      HeadsCut(pings[..|pings| - 1], now);
    }
  }

  ghost predicate Clean(table: Table) {
    forall id | id in table :: ';' !in table[id].relay
  }

  lemma CleanHeads(pings: seq<Ping>, now: int)
    ensures Clean(Learned(map[], pings, now)) ==> Heads(pings, now) == Learned(map[], pings, now)
  {
    var heads, whole := Heads(pings, now), Learned(map[], pings, now);
    HeadsCut(pings, now);
    if Clean(whole) {
      forall id | id in whole ensures heads[id] == whole[id] {
        HeadClean(whole[id].relay);
      }
    }
  }

  /** The pings come through exactly when, of each real id, the last known relay has no
      semicolon, and what earlier relays spill is overwritten by a later ping or repeats what is
      to be learned anyway. */
  lemma PingsComeThroughExactly(table: Table, pings: seq<Ping>, now: int)
    requires Clean(table) && Parts(pings) != []
    ensures var learned, intruders := Learned(table, pings, now), Intruders(pings, now);
            Received(table, PREFIX + Join(Parts(pings)), now) == learned <==>
            && Clean(Learned(map[], pings, now))
            && (forall id | id in intruders :: id in learned && learned[id] == intruders[id])
  {
    var learned, intruders, heads := Learned(table, pings, now), Intruders(pings, now), Heads(pings, now);
    var received := Received(table, PREFIX + Join(Parts(pings)), now);
    MessageTeaches(table, pings, now);
    TaughtSplits(pings, now);
    LearnedMerges(table, pings, now);
    CleanHeads(pings, now);
    ReceivedClean(table, PREFIX + Join(Parts(pings)), now);
    assert received == table + (heads + intruders);
    if received == learned {
      forall id | id in Learned(map[], pings, now) ensures ';' !in Learned(map[], pings, now)[id].relay {
        assert learned[id] == Learned(map[], pings, now)[id] && received[id] == learned[id];
      }
      forall id | id in intruders ensures id in learned && learned[id] == intruders[id] {
        assert received[id] == intruders[id];
      }
    }
  }

  lemma AcceptedClean(table: Table, part: string, now: int)
    requires Clean(table) && ';' !in part
    ensures Clean(Accept(table, part, now))
  {
    forall k | 0 <= k <= |part| ensures ';' !in part[k..] {
      assert forall c | c in part[k..] :: c in part;
    }
  }

  predicate KeptBy<T>(f: (T, string) -> T, kept: T -> bool, t: T, part: string) {
    kept(t) && ';' !in part ==> kept(f(t, part))
  }

  /** What every part without a semicolon keeps, the whole text keeps. */
  lemma {:induction false} FoldKeeps<T(!new)>(f: (T, string) -> T, kept: T -> bool, init: T, data: string, start: nat)
    requires start <= |data| && kept(init) && forall t, part :: KeptBy(f, kept, t, part)
    ensures kept(FoldPieces(f, init, data, start))
    decreases |data| - start
  {
    var next := Find(data, ';', start);
    var part := data[start..next];
    assert ';' !in part;
    assert KeptBy(f, kept, init, part);
    FoldPiecesStep(f, init, data, start, next, f(init, part));
    if next < |data| {
      FoldKeeps(f, kept, f(init, part), data, next + 1);
    }
  }

  lemma RestClean(table: Table, data: string, start: nat, now: int)
    requires start <= |data| && Clean(table)
    ensures Clean(Rest(table, data, start, now))
  {
    forall t, part ensures KeptBy(Acceptor(now), Clean, t, part) {
      if Clean(t) && ';' !in part {
        AcceptedClean(t, part, now);
      }
    }
    FoldKeeps(Acceptor(now), Clean, table, data, start);
  }

  /** A parsed table never has a semicolon in a relay. */
  lemma ReceivedClean(table: Table, payload: string, now: int)
    requires Clean(table)
    ensures Clean(Received(table, payload, now))
  {
    if PREFIX <= payload {
      RestClean(table, payload[|PREFIX|..], 0, now);
    }
  }

  /** The host lists each connected account once. */
  ghost predicate DistinctIds(pings: seq<Ping>) {
    && (forall i | 0 <= i < |pings| && pings[i].ping >= 0 :: pings[i].id > 0)
    && (forall i, j | 0 <= i < j < |pings| && pings[i].ping >= 0 && pings[j].ping >= 0 :: pings[i].id != pings[j].id)
  }

  ghost predicate CleanRelays(pings: seq<Ping>) {
    forall p | p in pings && p.ping >= 0 :: ';' !in p.relay
  }

  lemma {:induction false} CleanRelaysSpillNothing(pings: seq<Ping>, now: int)
    requires CleanRelays(pings)
    ensures Intruders(pings, now) == map[] && Clean(Learned(map[], pings, now))
  {
    if pings != [] {
      var n := |pings| - 1;
      assert pings[n] in pings && forall p | p in pings[..n] :: p in pings;
      CleanRelaysSpillNothing(pings[..n], now);
      if pings[n].ping >= 0 {
        HeadClean(pings[n].relay);
      }
    }
  }

  lemma {:induction false} DistinctAllLearned(pings: seq<Ping>, now: int, i: nat)
    requires DistinctIds(pings) && i < |pings| && pings[i].ping >= 0
    ensures var learned := Learned(map[], pings, now);
            pings[i].id in learned && learned[pings[i].id].relay == pings[i].relay
  {
    var n := |pings| - 1;
    if i < n {
      assert pings[..n][i] == pings[i];
      DistinctAllLearned(pings[..n], now, i);
    }
  }

  /** For the lists the host sends, the restriction on relays is exact: they come through if and
      only if no known ping has a semicolon in its relay. */
  lemma DistinctPingsComeThroughExactly(table: Table, pings: seq<Ping>, now: int)
    requires Clean(table) && Parts(pings) != [] && DistinctIds(pings)
    ensures Received(table, PREFIX + Join(Parts(pings)), now) == Learned(table, pings, now) <==> CleanRelays(pings)
  {
    PingsComeThroughExactly(table, pings, now);
    if CleanRelays(pings) {
      CleanRelaysSpillNothing(pings, now);
    } else {
      var p :| p in pings && p.ping >= 0 && ';' in p.relay;
      var i :| 0 <= i < |pings| && pings[i] == p;
      DistinctAllLearned(pings, now, i);
    }
  }

  /** Relays may contain colons but no semicolon: then a member that parses the host's message
      learns exactly the host's known pings, the last one winning, whatever the table held. */
  lemma PingRoundTrip(table: Table, pings: seq<Ping>, now: int)
    requires CleanRelays(pings) && Parts(pings) != []
    ensures Received(table, PREFIX + Join(Parts(pings)), now) == Learned(table, pings, now)
  {
    CleanRelaysSpillNothing(pings, now);
    MessageTeaches(table, pings, now);
    TaughtSplits(pings, now);
    LearnedMerges(table, pings, now);
    CleanHeads(pings, now);
  }

  /** A relay with a semicolon does not come through: what follows it can even be stored as the
      ping of an account the host never listed. */
  lemma SpilledRecordIsStored(p: Ping, q: Ping, now: int)
    requires p.ping >= 0 && q.ping >= 0 && p.id != q.id > 0 && ';' !in p.relay && ';' !in q.relay
    ensures var sent := p.(relay := p.relay + ";" + PrintedPart(q));
            var received := Received(map[], PREFIX + Join(Parts([sent])), now);
            && q.id in received && received[q.id] == PingInfo(q.ping, q.relay, now)
            && q.id !in Learned(map[], [sent], now)
  {
    var sent := p.(relay := p.relay + ";" + PrintedPart(q));
    assert [sent][..0] == [];
    MessageTeaches(map[], [sent], now);
    FindBefore(p.relay, PrintedPart(q), ';', 0);
    FindNowhere(p.relay, ';', 0);
    assert sent.relay[|p.relay| + 1..] == PrintedPart(q);
    CleanPartTold(q, now);
    HeadClean(q.relay);
  }

  /** A semicolon in a relay that a later ping of the same account supersedes does no harm, if
      what follows it is no record. */
  lemma SupersededRelayIsHarmless(now: int)
    ensures var pings := [Ping(5, 1, "a;b"), Ping(5, 2, "c")];
            Received(map[], PREFIX + Join(Parts(pings)), now) == Learned(map[], pings, now)
  {
    var first, second := Ping(5, 1, "a;b"), Ping(5, 2, "c");
    var pings := [first, second];
    assert pings[..1] == [first] && [first][..0] == [];
    FindAt("a;b", ';', 0, 1);
    FindNowhere("c", ';', 0);
    FindNowhere("b", ';', 0);
    FindNowhere("b", ':', 0);
    assert "a;b"[2..] == "b" && "b"[0..1] == "b";
    assert Told("b", now) == map[];
    assert Spilled(first, now) == map[] && Spilled(second, now) == map[];
    assert Intruders([first], now) == map[];
    assert Learned(map[], [first], now) == map[5 := PingInfo(1, "a;b", now)];
    assert Learned(map[], pings, now) == map[5 := PingInfo(2, "c", now)];
    PingsComeThroughExactly(map[], pings, now);
  }
}
