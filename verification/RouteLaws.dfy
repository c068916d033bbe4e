/** What the routing table holds, in terms of what happened: after any run of table events, and
    after a route update received by any table. */
module RouteLaws {
  import opened Options
  import opened Words
  import opened RouteTable
  import opened Subnet

  ghost predicate Routed(r: Routes, entry: RouteEntry) {
    entry.ipAddress in r.table && r.table[entry.ipAddress] == entry
  }

  // ----- one event -----

  /** The events that end an entry: a later entry for its address or its account, the end of its
      lease, and its account leaving. */
  ghost predicate Ends(e: RouteEvent, entry: RouteEntry) {
    match e
    case Update(other) => other.ipAddress == entry.ipAddress || other.steamID == entry.steamID
    case Expire(ip) => ip == entry.ipAddress
    case Leave(steamID) => steamID == entry.steamID
    case Observe(_) => false
  }

  ghost predicate Marks(e: RouteEvent, ip: Word32) {
    match e
    case Update(entry) => entry.ipAddress == ip
    case Observe(ips) => ip in ips
    case Expire(_) => false
    case Leave(_) => false
  }

  /** The events that free an address: the end of its lease, and the account routed there leaving. */
  ghost predicate Frees(r: Routes, e: RouteEvent, ip: Word32) {
    match e
    case Expire(ip') => ip' == ip
    case Leave(steamID) => ip in r.table && r.table[ip].steamID == steamID
    case Update(_) => false
    case Observe(_) => false
  }

  /** One event routes its entry, ends what it ends, and leaves the rest of the table alone; an
      address is used afterwards if it is marked, or was used and is not freed. */
  lemma EventExactly(r: Routes, e: RouteEvent, entry: RouteEntry, ip: Word32)
    requires Agree(r)
    ensures Agree(Next(r, e))
    ensures Routed(Next(r, e), entry) <==> e == Update(entry) || (Routed(r, entry) && !Ends(e, entry))
    ensures ip in Next(r, e).used <==> Marks(e, ip) || (ip in r.used && !Frees(r, e, ip))
  {
    AgreeStep(r, e);
  }

  // ----- whole runs -----

  /** Event k routed the entry and nothing has ended it since. */
  ghost predicate LastRouted(events: seq<RouteEvent>, k: nat, entry: RouteEntry) {
    k < |events| && events[k] == Update(entry) && NoneEnds(events, k + 1, entry)
  }

  ghost predicate NoneEnds(events: seq<RouteEvent>, from: nat, entry: RouteEntry) {
    forall j | from <= j < |events| :: !Ends(events[j], entry)
  }

  /** After any events a table holds exactly the entries that were routed, before or by one of
      the events, and that no later event ended. */
  lemma {:induction false} RoutedExactly(r: Routes, events: seq<RouteEvent>, entry: RouteEntry)
    requires Agree(r)
    ensures Agree(After(r, events))
    ensures Routed(After(r, events), entry) <==>
              (Routed(r, entry) && NoneEnds(events, 0, entry)) || exists k :: LastRouted(events, k, entry)
  {
    if events != [] {
      var n := |events| - 1;
      var front := events[..n];
      RoutedExactly(r, front, entry);
      EventExactly(After(r, front), events[n], entry, entry.ipAddress);
      EndsLater(events, entry);
      if events[n] == Update(entry) {
        assert LastRouted(events, n, entry);
      }
    }
  }

  /** What one more event changes about which entries have lasted. */
  lemma EndsLater(events: seq<RouteEvent>, entry: RouteEntry)
    requires events != []
    ensures var n := |events| - 1;
            && (NoneEnds(events, 0, entry) <==> NoneEnds(events[..n], 0, entry) && !Ends(events[n], entry))
            && forall k | k != n :: LastRouted(events, k, entry) <==>
                 LastRouted(events[..n], k, entry) && !Ends(events[n], entry)
  {
    var n := |events| - 1;
    var front := events[..n];
    assert forall j | 0 <= j < n :: events[j] == front[j];
    forall k | k != n
      ensures LastRouted(events, k, entry) <==> LastRouted(front, k, entry) && !Ends(events[n], entry)
    {
      if LastRouted(events, k, entry) {
        assert !Ends(events[n], entry);
      }
    }
  }

  // ----- a route update -----

  /** The entry a record (steamID, ip) stands for: a remote account's, with the name and identity
      looked up for it. */
  ghost function EntryOf(dir: Directory, steamID: Word64, ip: Word32): RouteEntry {
    RouteEntry(steamID, ip, dir.nameOf(steamID), false, dir.idOf(steamID))
  }

  /** A record is taken over if its account is not our own, its address is not routed, and the
      address lies in the subnet. */
  ghost predicate Welcome(dir: Directory, net: Network, r: Routes, steamID: Word64, ip: Word32) {
    steamID != dir.self && ip !in r.table && net.Contains(ip)
  }

  /** One record, with any table: an address already routed never changes hands. What is taken
      over ends only its account's entry elsewhere; what is not changes nothing. */
  lemma LearnExactly(dir: Directory, net: Network, r: Routes, steamID: Word64, ip: Word32, entry: RouteEntry)
    requires Agree(r)
    ensures var r' := Learn(dir, net, r, steamID, ip);
            && Agree(r')
            && (forall ip' | ip' in r.table && ip' in r'.table :: r'.table[ip'] == r.table[ip'])
            && (if Welcome(dir, net, r, steamID, ip) then
                  && (Routed(r', entry) <==>
                       entry == EntryOf(dir, steamID, ip) || (Routed(r, entry) && entry.steamID != steamID))
                  && r'.used == r.used + {ip}
                else r' == r)
  {
    EventExactly(r, Update(dir.Learned(steamID, ip)), entry, ip);
  }

  /** What a receiver makes of each record of an update. */
  datatype Log = Log(taken: nat -> bool, steamID: nat -> Word64, ip: nat -> Word32)

  ghost predicate HasRecord(payload: Bytes, j: nat) {
    RECORD_BYTES * j + RECORD_BYTES <= |payload|
  }

  /** Record j is taken over by a receiver that started from r. */
  ghost predicate TakenOver(dir: Directory, net: Network, r: Routes, payload: Bytes, j: nat) {
    HasRecord(payload, j) && Welcome(dir, net, LearnAll(dir, net, r, payload, j), SteamIDAt(payload, j), AddressAt(payload, j))
  }

  ghost function LogOf(dir: Directory, net: Network, r: Routes, payload: Bytes): Log {
    Log((j: nat) => TakenOver(dir, net, r, payload, j),
        (j: nat) => if HasRecord(payload, j) then SteamIDAt(payload, j) else 0,
        (j: nat) => if HasRecord(payload, j) then AddressAt(payload, j) else 0)
  }

  /** No record from i on, among the first k, moves the account. */
  ghost predicate NotMoved(log: Log, i: nat, k: nat, steamID: Word64) {
    forall j | i <= j < k && log.taken(j) :: log.steamID(j) != steamID
  }

  /** Record j is taken over, is the entry's, and moved its account last. */
  ghost predicate LearnedLast(log: Log, dir: Directory, j: nat, k: nat, entry: RouteEntry) {
    j < k && log.taken(j) && entry == EntryOf(dir, log.steamID(j), log.ip(j)) && NotMoved(log, j + 1, k, entry.steamID)
  }

  ghost predicate Marked(log: Log, k: nat, ip: Word32) {
    exists j: nat :: j < k && log.taken(j) && log.ip(j) == ip
  }

  /** The entry is still held, or was learned. */
  ghost predicate Lasts(log: Log, dir: Directory, held: bool, k: nat, entry: RouteEntry) {
    (held && NotMoved(log, 0, k, entry.steamID)) || exists j :: LearnedLast(log, dir, j, k, entry)
  }

  /** One more record taken over: its entry is learned, and its account's other entry ends. */
  lemma LastsOneMore(log: Log, dir: Directory, held: bool, n: nat, entry: RouteEntry)
    ensures Lasts(log, dir, held, n + 1, entry) <==>
              if log.taken(n) then
                entry == EntryOf(dir, log.steamID(n), log.ip(n)) || (Lasts(log, dir, held, n, entry) && entry.steamID != log.steamID(n))
              else Lasts(log, dir, held, n, entry)
  {
    var stays := !(log.taken(n) && log.steamID(n) == entry.steamID);
    NotMovedOneMore(log, 0, n, entry.steamID);
    forall j: nat | j != n
      ensures LearnedLast(log, dir, j, n + 1, entry) <==> LearnedLast(log, dir, j, n, entry) && stays
    {
      if j < n {
        NotMovedOneMore(log, j + 1, n, entry.steamID);
      }
    }
    var isNew := log.taken(n) && entry == EntryOf(dir, log.steamID(n), log.ip(n));
    assert LearnedLast(log, dir, n, n + 1, entry) <==> isNew;
    if Lasts(log, dir, held, n, entry) && stays && !(held && NotMoved(log, 0, n, entry.steamID)) {
      var j: nat :| LearnedLast(log, dir, j, n, entry);
      assert LearnedLast(log, dir, j, n + 1, entry);
    }
    if Lasts(log, dir, held, n + 1, entry) && !isNew && !(held && NotMoved(log, 0, n + 1, entry.steamID)) {
      var j: nat :| LearnedLast(log, dir, j, n + 1, entry);
      assert LearnedLast(log, dir, j, n, entry);
    }
  }

  lemma NotMovedOneMore(log: Log, i: nat, n: nat, steamID: Word64)
    requires i <= n
    ensures NotMoved(log, i, n + 1, steamID) <==>
              NotMoved(log, i, n, steamID) && !(log.taken(n) && log.steamID(n) == steamID)
  {}

  lemma MarkedOneMore(log: Log, n: nat, ip: Word32)
    ensures Marked(log, n + 1, ip) <==> Marked(log, n, ip) || (log.taken(n) && log.ip(n) == ip)
  {}

  /** An update received by any table: an entry stays exactly when no record taken over moves its
      account, and a new one is there exactly when the last record to move its account says so. The
      addresses of the records taken over, and no others, become used. */
  lemma {:induction false} LearnAllExactly(dir: Directory, net: Network, r: Routes, payload: Bytes, k: nat, entry: RouteEntry, ip: Word32)
    requires Agree(r) && RECORD_BYTES * k <= |payload|
    ensures var r', log := LearnAll(dir, net, r, payload, k), LogOf(dir, net, r, payload);
            && Agree(r')
            && (Routed(r', entry) <==> Lasts(log, dir, Routed(r, entry), k, entry))
            && (ip in r'.used <==> ip in r.used || Marked(log, k, ip))
  {
    var log := LogOf(dir, net, r, payload);
    if k > 0 {
      var n := k - 1;
      LearnAllExactly(dir, net, r, payload, n, entry, ip);
      LearnAllOneMore(dir, net, r, payload, n);
      RecordLogged(dir, net, r, payload, n);
      LearnExactly(dir, net, LearnAll(dir, net, r, payload, n), log.steamID(n), log.ip(n), entry);
      LastsOneMore(log, dir, Routed(r, entry), n, entry);
      MarkedOneMore(log, n, ip);
    } else {
      assert NotMoved(log, 0, 0, entry.steamID);
    }
  }

  lemma RecordLogged(dir: Directory, net: Network, r: Routes, payload: Bytes, n: nat)
    requires HasRecord(payload, n)
    ensures var log := LogOf(dir, net, r, payload);
            && log.steamID(n) == SteamIDAt(payload, n) && log.ip(n) == AddressAt(payload, n)
            && (log.taken(n) <==> Welcome(dir, net, LearnAll(dir, net, r, payload, n), SteamIDAt(payload, n), AddressAt(payload, n)))
  {}

  /** An update that names only addresses already routed teaches nothing, whoever it gives them to. */
  lemma {:induction false} RoutedTeachesNothing(dir: Directory, net: Network, r: Routes, payload: Bytes, k: nat)
    requires RECORD_BYTES * k <= |payload| && forall j: nat | j < k :: AddressAt(payload, j) in r.table
    ensures LearnAll(dir, net, r, payload, k) == r
  {
    if k > 0 {
      RoutedTeachesNothing(dir, net, r, payload, k - 1);
    }
  }

  /** A routed address changes hands only if a record taken over moves its account first. */
  lemma HandsChangeOnlyByMove(dir: Directory, net: Network, r: Routes, payload: Bytes, k: nat, ip: Word32)
    requires Agree(r) && RECORD_BYTES * k <= |payload| && ip in r.table
    ensures var r' := LearnAll(dir, net, r, payload, k);
            (ip in r'.table && r'.table[ip] == r.table[ip])
            || exists j: nat :: j < k && TakenOver(dir, net, r, payload, j)
                 && SteamIDAt(payload, j) == r.table[ip].steamID && AddressAt(payload, j) != ip
  {
    var log, entry := LogOf(dir, net, r, payload), r.table[ip];
    LearnAllExactly(dir, net, r, payload, k, entry, ip);
    if !NotMoved(log, 0, k, entry.steamID) {
      var j := FirstMove(log, k, entry.steamID);
      RecordLogged(dir, net, r, payload, j);
      LearnAllExactly(dir, net, r, payload, j, entry, ip);
    }
  }

  lemma {:induction false} FirstMove(log: Log, k: nat, steamID: Word64) returns (j: nat)
    requires !NotMoved(log, 0, k, steamID)
    ensures j < k && log.taken(j) && log.steamID(j) == steamID && NotMoved(log, 0, j, steamID)
  {
    if NotMoved(log, 0, k - 1, steamID) {
      j := k - 1;
    } else {
      j := FirstMove(log, k - 1, steamID);
    }
  }

  /** So within one update it can: an account routed at ip moves to a free address, and the next
      record gives ip to somebody else. */
  lemma VacatedAddressChangesHands(dir: Directory, net: Network, r: Routes, payload: Bytes, ip: Word32)
    requires Agree(r) && ip in r.table && |payload| == 24
    requires SteamIDAt(payload, 0) == r.table[ip].steamID && SteamIDAt(payload, 1) != r.table[ip].steamID
    requires Welcome(dir, net, r, SteamIDAt(payload, 0), AddressAt(payload, 0))
    requires AddressAt(payload, 1) == ip && SteamIDAt(payload, 1) != dir.self && net.Contains(ip)
    ensures Routed(LearnAll(dir, net, r, payload, 2), EntryOf(dir, SteamIDAt(payload, 1), ip))
  {
    LearnAllOneMore(dir, net, r, payload, 0);
    LearnAllOneMore(dir, net, r, payload, 1);
    AddressTaken(dir, net, r, SteamIDAt(payload, 0), AddressAt(payload, 0), SteamIDAt(payload, 1), ip);
  }

  lemma AddressTaken(dir: Directory, net: Network, r: Routes, mover: Word64, free: Word32, taker: Word64, ip: Word32)
    requires Agree(r) && ip in r.table && r.table[ip].steamID == mover && taker != mover && taker != dir.self
    requires Welcome(dir, net, r, mover, free) && net.Contains(ip)
    ensures Routed(Learn(dir, net, Learn(dir, net, r, mover, free), taker, ip), EntryOf(dir, taker, ip))
  {
    var between := Learn(dir, net, r, mover, free);
    LearnExactly(dir, net, r, mover, free, r.table[ip]);
    if ip in between.table {
      LearnExactly(dir, net, r, mover, free, between.table[ip]);
    }
    LearnExactly(dir, net, between, taker, ip, EntryOf(dir, taker, ip));
  }

  // ----- the bytes of the message -----

  /** A record is twelve bytes: the account, least significant byte first, then the address, most
      significant byte first. */
  lemma FieldsExactly(p: Bytes, k: nat)
    requires 12 * k + 12 <= |p|
    ensures var at := 12 * k;
            && SteamIDAt(p, k) == Four(p[at + 7], p[at + 6], p[at + 5], p[at + 4]) * 0x1_0000_0000
                                  + Four(p[at + 3], p[at + 2], p[at + 1], p[at])
            && AddressAt(p, k) == Four(p[at + 8], p[at + 9], p[at + 10], p[at + 11])
  {
    LittleEndianEight(p[12 * k..12 * k + 8]);
    BigEndianFour(p[12 * k + 8..12 * k + 12]);
  }

  /** What any message does to any table. One that is shorter than its header of three bytes, or than
      the length in it, or of another type, does nothing; a route update is read record by record,
      and bytes after the last whole record are ignored. */
  lemma ReceiveExactly(dir: Directory, net: Network, r: Routes, m: Bytes)
    ensures Receive(dir, net, r, m) ==
              if |m| < 3 then r
              else
                var length := Two(m[1], m[2]);
                if |m| < 3 + length || m[0] != 3 then r
                else LearnAll(dir, net, r, m[3..3 + length], length / 12)
  {
    if |m| >= 3 {
      BigEndianTwo(m[1..3]);
    }
  }

  /** A message sent: its type, the length of its payload modulo 2^16, and the payload. */
  lemma FramedExactly(payload: Bytes)
    ensures var m := Framed(payload);
            && |m| == 3 + |payload| && m[0] == 3 && m[3..] == payload
            && Two(m[1], m[2]) == |payload| % 0x1_0000
  {
    Pow2Values();
    BigEndianRoundTrip(|payload| % 0x1_0000, 2);
    BigEndianTwo(BigEndian(|payload| % 0x1_0000, 2));
  }
}
