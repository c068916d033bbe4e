/** The bridge's routing table as a value, next to the negotiator's set of used
    addresses, and the ROUTE_UPDATE message that carries a table to the peers. */
module RouteTable {
  import opened Options
  import opened Words
  import opened NodeIdentity
  import opened Subnet

  datatype RouteEntry = RouteEntry(
    steamID: Word64, ipAddress: Word32, name: string, isLocal: bool, nodeId: NodeID)

  /** The local account, persona names, and the identity derived from a Steam ID. */
  datatype Directory = Directory(self: Word64, nameOf: Word64 -> string, idOf: Word64 -> NodeID) {
    function Entry(nodeId: NodeID, steamID: Word64, ip: Word32, name: string): RouteEntry {
      RouteEntry(steamID, ip, name, steamID == self, nodeId)
    }

    /** The entry made for a route learned from a peer's update. */
    function Learned(steamID: Word64, ip: Word32): RouteEntry {
      Entry(idOf(steamID), steamID, ip, nameOf(steamID))
    }
  }

  type Table = map<Word32, RouteEntry>

  datatype Routes = Routes(table: Table, used: set<Word32>)

  datatype RouteEvent =
    | Update(entry: RouteEntry)
    | Expire(ip: Word32)
    | Leave(steamID: Word64)
    | Observe(ips: set<Word32>)

  /** One address per Steam ID: a new entry displaces the account's older ones. */
  function Updated(table: Table, entry: RouteEntry): Table {
    (map ip | ip in table && !(table[ip].steamID == entry.steamID && ip != entry.ipAddress) :: table[ip])
      [entry.ipAddress := entry]
  }

  function WithoutUser(table: Table, steamID: Word64): Table {
    map ip | ip in table && table[ip].steamID != steamID :: table[ip]
  }

  function AddressesOf(table: Table, steamID: Word64): set<Word32> {
    set ip | ip in table && table[ip].steamID == steamID
  }

  function Next(r: Routes, e: RouteEvent): Routes {
    match e
    case Update(entry) => Routes(Updated(r.table, entry), r.used + {entry.ipAddress})
    case Expire(ip) => Routes(r.table - {ip}, r.used - {ip})
    case Leave(steamID) => Routes(WithoutUser(r.table, steamID), r.used - AddressesOf(r.table, steamID))
    case Observe(ips) => r.(used := r.used + ips)
  }

  function After(r: Routes, events: seq<RouteEvent>): Routes {
    if events == [] then r else Next(After(r, events[..|events| - 1]), events[|events| - 1])
  }

  ghost predicate Agree(r: Routes) {
    && (forall ip | ip in r.table :: r.table[ip].ipAddress == ip && ip in r.used)
    && (forall ip, ip' | ip in r.table && ip' in r.table && r.table[ip].steamID == r.table[ip'].steamID :: ip == ip')
  }

  lemma AgreeStep(r: Routes, e: RouteEvent)
    requires Agree(r)
    ensures Agree(Next(r, e))
  {}

  /** From an empty table on, keys are the entries' addresses, no account has two,
      and every routed address is marked used. */
  lemma {:induction false} RoutesAgree(events: seq<RouteEvent>, used: set<Word32>)
    ensures Agree(After(Routes(map[], used), events))
  {
    if events != [] {
      RoutesAgree(events[..|events| - 1], used);
      AgreeStep(After(Routes(map[], used), events[..|events| - 1]), events[|events| - 1]);
    }
  }

  /** So a freshly chosen candidate is never a routed address, unless every host
      address of the subnet is marked used. */
  lemma CandidateIsUnrouted(events: seq<RouteEvent>, used: set<Word32>, net: Network, hostBits: nat, startIP: Word32)
    requires net.Contiguous(hostBits) && 2 <= hostBits
    ensures var r := After(Routes(map[], used), events);
            NextAvailable(net, r.used, startIP) in r.table ==>
              forall host: Word32 | IsHost(hostBits, host) :: net.Address(host) in r.used
  {
    RoutesAgree(events, used);
    NextAvailableComplete(net, hostBits, After(Routes(map[], used), events).used, startIP);
  }

  // ----- the route update message -----

  const ROUTE_UPDATE: Byte := 3
  const RECORD_BYTES: nat := 12
  const HEADER_BYTES: nat := 3
  /** The most records whose size a 16-bit length can hold. */
  const MAX_RECORDS: nat := 5461

  type Bytes = seq<Byte>

  function Record(entry: RouteEntry): (b: Bytes)
    ensures |b| == RECORD_BYTES
  {
    LittleEndian(entry.steamID, 8) + BigEndian(entry.ipAddress, 4)
  }

  function Records(table: Table, ips: seq<Word32>): (b: Bytes)
    requires forall ip | ip in ips :: ip in table
    ensures |b| == RECORD_BYTES * |ips|
  {
    if ips == [] then [] else Records(table, ips[..|ips| - 1]) + Record(table[ips[|ips| - 1]])
  }

  /** Header (type, then the length in network order modulo 2^16) and payload. */
  function Framed(payload: Bytes): Bytes {
    [ROUTE_UPDATE] + BigEndian(|payload| % 65536, 2) + payload
  }

  /** The payload of a route update, if the message is one and long enough. */
  function Payload(message: Bytes): Option<Bytes> {
    if |message| < HEADER_BYTES then None
    else
      var length := ReadBigEndian(message[1..3]);
      if |message| < HEADER_BYTES + length || message[0] != ROUTE_UPDATE then None
      else Some(message[HEADER_BYTES..HEADER_BYTES + length])
  }

  function SteamIDAt(payload: Bytes, k: nat): Word64
    requires RECORD_BYTES * k + RECORD_BYTES <= |payload|
  {
    var b := payload[RECORD_BYTES * k..RECORD_BYTES * k + 8];
    ReadsFit(b);
    Pow2Values();
    ReadLittleEndian(b)
  }

  function AddressAt(payload: Bytes, k: nat): Word32
    requires RECORD_BYTES * k + RECORD_BYTES <= |payload|
  {
    var b := payload[RECORD_BYTES * k + 8..RECORD_BYTES * k + RECORD_BYTES];
    ReadsFit(b);
    Pow2Values();
    ReadBigEndian(b)
  }

  /** Taking over one record: not our own, not routed yet, inside the subnet. */
  function Learn(dir: Directory, net: Network, r: Routes, steamID: Word64, ip: Word32): Routes {
    if steamID == dir.self || ip in r.table || !net.Contains(ip) then r
    else Next(r, Update(dir.Learned(steamID, ip)))
  }

  /** Taking over the first k records of a payload. */
  function LearnAll(dir: Directory, net: Network, r: Routes, payload: Bytes, k: nat): Routes
    requires RECORD_BYTES * k <= |payload|
  {
    if k == 0 then r
    else Learn(dir, net, LearnAll(dir, net, r, payload, k - 1), SteamIDAt(payload, k - 1), AddressAt(payload, k - 1))
  }

  function Receive(dir: Directory, net: Network, r: Routes, message: Bytes): Routes {
    match Payload(message)
    case None => r
    case Some(payload) => LearnAll(dir, net, r, payload, |payload| / RECORD_BYTES)
  }

  lemma {:induction false} RecordAt(table: Table, ips: seq<Word32>, k: nat)
    requires forall ip | ip in ips :: ip in table
    requires k < |ips|
    ensures Records(table, ips)[RECORD_BYTES * k..RECORD_BYTES * k + RECORD_BYTES] == Record(table[ips[k]])
  {
    var n := |ips| - 1;
    var front := Records(table, ips[..n]);
    if k < n {
      RecordAt(table, ips[..n], k);
      assert Records(table, ips)[..|front|] == front;
      assert Records(table, ips)[RECORD_BYTES * k..RECORD_BYTES * k + RECORD_BYTES]
          == front[RECORD_BYTES * k..RECORD_BYTES * k + RECORD_BYTES];
    }
  }

  lemma RecordFields(entry: RouteEntry)
    ensures ReadLittleEndian(Record(entry)[0..8]) == entry.steamID
    ensures ReadBigEndian(Record(entry)[8..RECORD_BYTES]) == entry.ipAddress
  {
    Pow2Values();
    LittleEndianRoundTrip(entry.steamID, 8);
    BigEndianRoundTrip(entry.ipAddress, 4);
    assert Record(entry)[0..8] == LittleEndian(entry.steamID, 8);
    assert Record(entry)[8..RECORD_BYTES] == BigEndian(entry.ipAddress, 4);
  }

  lemma RecordRoundTrip(payload: Bytes, k: nat, entry: RouteEntry)
    requires RECORD_BYTES * k + RECORD_BYTES <= |payload|
    requires payload[RECORD_BYTES * k..RECORD_BYTES * k + RECORD_BYTES] == Record(entry)
    ensures SteamIDAt(payload, k) == entry.steamID && AddressAt(payload, k) == entry.ipAddress
  {
    var at := RECORD_BYTES * k;
    RecordFields(entry);
    SliceOfSlice(payload, at, at + RECORD_BYTES, 0, 8);
    SliceOfSlice(payload, at, at + RECORD_BYTES, 8, RECORD_BYTES);
  }

  lemma SliceOfSlice(p: Bytes, a: nat, b: nat, c: nat, d: nat)
    requires a <= b <= |p| && c <= d <= b - a
    ensures p[a..b][c..d] == p[a + c..a + d]
  {
    forall k | 0 <= k < d - c ensures p[a..b][c..d][k] == p[a + c..a + d][k] {}
  }

  /** How many of n records survive the 16-bit length. */
  function Announced(n: nat): nat {
    ((RECORD_BYTES * n) % 65536) / RECORD_BYTES
  }

  /** The routes of `ips` a receiver takes over into an empty table. */
  function Visible(dir: Directory, net: Network, table: Table, ips: seq<Word32>): Table
    requires forall ip | ip in ips :: ip in table
  {
    map ip | ip in ips && table[ip].steamID != dir.self && net.Contains(ip)
      :: dir.Learned(table[ip].steamID, ip)
  }

  /** A listing of the whole table in ascending address order. */
  ghost predicate Listing(table: Table, ips: seq<Word32>) {
    && (forall ip :: ip in ips <==> ip in table)
    && (forall i, j | 0 <= i < j < |ips| :: ips[i] < ips[j])
  }

  lemma UpdatedFresh(table: Table, entry: RouteEntry)
    requires forall ip | ip in table :: table[ip].steamID != entry.steamID
    ensures Updated(table, entry) == table[entry.ipAddress := entry]
  {}

  lemma VisibleStep(dir: Directory, net: Network, table: Table, ips: seq<Word32>, k: nat)
    requires Agree(Routes(table, table.Keys)) && Listing(table, ips) && k < |ips|
    ensures ips[k] !in Visible(dir, net, table, ips[..k])
    ensures var before := Visible(dir, net, table, ips[..k]);
            forall other | other in before :: before[other].steamID != table[ips[k]].steamID
    ensures var ip, before := ips[k], Visible(dir, net, table, ips[..k]);
            Visible(dir, net, table, ips[..k + 1]) ==
              if table[ip].steamID == dir.self || !net.Contains(ip) then before
              else before[ip := dir.Learned(table[ip].steamID, ip)]
  {
    var ip := ips[k];
    ListedOnce(table, ips, k);
    assert ips[..k + 1] == ips[..k] + [ip];
  }

  lemma ListedOnce(table: Table, ips: seq<Word32>, k: nat)
    requires Listing(table, ips) && k < |ips|
    ensures ips[k] in table && ips[k] !in ips[..k]
    ensures forall other | other in ips[..k] :: other in table
  {
    assert ips[k] in ips;
    assert forall other | other in ips[..k] :: other in ips;
  }

  lemma LearnVisible(dir: Directory, net: Network, table: Table, ips: seq<Word32>, k: nat, r: Routes)
    requires Agree(Routes(table, table.Keys)) && Listing(table, ips) && k < |ips|
    requires r.table == Visible(dir, net, table, ips[..k])
    ensures Learn(dir, net, r, table[ips[k]].steamID, ips[k]).table == Visible(dir, net, table, ips[..k + 1])
  {
    VisibleStep(dir, net, table, ips, k);
    UpdatedFresh(r.table, dir.Learned(table[ips[k]].steamID, ips[k]));
  }

  /** Record j of the payload is that of the j-th listed address. */
  ghost predicate CarriesAt(payload: Bytes, table: Table, ips: seq<Word32>, j: nat) {
    && RECORD_BYTES * j + RECORD_BYTES <= |payload| && j < |ips| && ips[j] in table
    && SteamIDAt(payload, j) == table[ips[j]].steamID && AddressAt(payload, j) == ips[j]
  }

  lemma LearnOneMore(dir: Directory, net: Network, table: Table, ips: seq<Word32>, k: nat, payload: Bytes, r: Routes)
    requires Agree(Routes(table, table.Keys)) && Listing(table, ips) && CarriesAt(payload, table, ips, k)
    requires r.table == Visible(dir, net, table, ips[..k])
    ensures Learn(dir, net, r, SteamIDAt(payload, k), AddressAt(payload, k)).table == Visible(dir, net, table, ips[..k + 1])
  {
    LearnVisible(dir, net, table, ips, k, r);
  }

  /** One more record taken over is one more address visible, however the learning is done. */
  lemma {:induction false} VisibleAlong(learned: nat -> Table, visible: nat -> Table, k: nat)
    requires learned(0) == visible(0)
    requires forall j: nat | j < k :: learned(j) == visible(j) ==> learned(j + 1) == visible(j + 1)
    ensures learned(k) == visible(k)
  {
    if k > 0 {
      VisibleAlong(learned, visible, k - 1);
      assert learned(k - 1) == visible(k - 1) ==> learned(k - 1 + 1) == visible(k - 1 + 1);
    }
  }

  function LearnedUpTo(dir: Directory, net: Network, payload: Bytes): nat -> Table {
    (k: nat) => if RECORD_BYTES * k <= |payload| then LearnAll(dir, net, Routes(map[], {}), payload, k).table else map[]
  }

  function VisibleUpTo(dir: Directory, net: Network, table: Table, ips: seq<Word32>): nat -> Table
    requires forall ip | ip in ips :: ip in table
  {
    (k: nat) => if k <= |ips| then Visible(dir, net, table, ips[..k]) else map[]
  }

  lemma LearnAllOneMore(dir: Directory, net: Network, r: Routes, payload: Bytes, k: nat)
    requires RECORD_BYTES * k + RECORD_BYTES <= |payload|
    ensures RECORD_BYTES * (k + 1) <= |payload|
    ensures LearnAll(dir, net, r, payload, k + 1) ==
              Learn(dir, net, LearnAll(dir, net, r, payload, k), SteamIDAt(payload, k), AddressAt(payload, k))
  {}

  lemma LearnRecordAt(dir: Directory, net: Network, table: Table, ips: seq<Word32>, j: nat, payload: Bytes)
    requires Agree(Routes(table, table.Keys)) && Listing(table, ips) && CarriesAt(payload, table, ips, j)
    ensures LearnedUpTo(dir, net, payload)(j) == VisibleUpTo(dir, net, table, ips)(j) ==>
              LearnedUpTo(dir, net, payload)(j + 1) == VisibleUpTo(dir, net, table, ips)(j + 1)
  {
    var r := LearnAll(dir, net, Routes(map[], {}), payload, j);
    LearnAllOneMore(dir, net, Routes(map[], {}), payload, j);
    if r.table == Visible(dir, net, table, ips[..j]) {
      LearnOneMore(dir, net, table, ips, j, payload, r);
    }
  }

  lemma LearnRecords(dir: Directory, net: Network, table: Table, ips: seq<Word32>, k: nat, payload: Bytes)
    requires Agree(Routes(table, table.Keys)) && Listing(table, ips) && k <= |ips|
    requires RECORD_BYTES * k <= |payload| <= RECORD_BYTES * |ips|
    requires payload == Records(table, ips)[..|payload|]
    ensures LearnAll(dir, net, Routes(map[], {}), payload, k).table == Visible(dir, net, table, ips[..k])
  {
    forall j: nat | j < k ensures CarriesAt(payload, table, ips, j) {
      PayloadRecord(table, ips, j, payload);
    }
    LearnCarried(dir, net, table, ips, k, payload);
  }

  lemma LearnCarried(dir: Directory, net: Network, table: Table, ips: seq<Word32>, k: nat, payload: Bytes)
    requires Agree(Routes(table, table.Keys)) && Listing(table, ips) && k <= |ips|
    requires RECORD_BYTES * k <= |payload| && forall j: nat | j < k :: CarriesAt(payload, table, ips, j)
    ensures LearnAll(dir, net, Routes(map[], {}), payload, k).table == Visible(dir, net, table, ips[..k])
  {
    var learned, visible := LearnedUpTo(dir, net, payload), VisibleUpTo(dir, net, table, ips);
    forall j: nat | j < k ensures learned(j) == visible(j) ==> learned(j + 1) == visible(j + 1) {
      LearnRecordAt(dir, net, table, ips, j, payload);
    }
    VisibleAlong(learned, visible, k);
  }

  lemma PayloadRecord(table: Table, ips: seq<Word32>, k: nat, payload: Bytes)
    requires Agree(Routes(table, table.Keys)) && Listing(table, ips) && k < |ips|
    requires RECORD_BYTES * k + RECORD_BYTES <= |payload| <= RECORD_BYTES * |ips|
    requires payload == Records(table, ips)[..|payload|]
    ensures SteamIDAt(payload, k) == table[ips[k]].steamID && AddressAt(payload, k) == ips[k]
  {
    var entry := table[ips[k]];
    RecordAt(table, ips, k);
    assert payload[RECORD_BYTES * k..RECORD_BYTES * k + RECORD_BYTES] == Record(entry);
    RecordRoundTrip(payload, k, entry);
  }

  /** Whatever its size, a table's update makes an empty receiver learn exactly the
      sender's routes among the first Announced(n), minus its own and minus those
      outside the subnet. Up to 5461 routes that is the whole table. */
  lemma RouteUpdateRoundTrip(dir: Directory, net: Network, table: Table, ips: seq<Word32>)
    requires Agree(Routes(table, table.Keys)) && Listing(table, ips)
    ensures Announced(|ips|) <= |ips| && (Announced(|ips|) == |ips| <==> |ips| <= MAX_RECORDS)
    ensures Receive(dir, net, Routes(map[], {}), Framed(Records(table, ips))).table ==
              Visible(dir, net, table, ips[..Announced(|ips|)])
  {
    var all := Records(table, ips);
    AnnouncedFits(|ips|);
    PayloadOfFramed(all);
    LearnRecords(dir, net, table, ips, Announced(|ips|), all[..|all| % 65536]);
  }

  /** The 16-bit length cuts a longer payload short. */
  lemma PayloadOfFramed(payload: Bytes)
    ensures Payload(Framed(payload)) == Some(payload[..|payload| % 65536])
  {
    var length := |payload| % 65536;
    Pow2Values();
    BigEndianRoundTrip(length, 2);
    var message := Framed(payload);
    assert message[1..3] == BigEndian(length, 2);
    assert message[HEADER_BYTES..HEADER_BYTES + length] == payload[..length];
  }

  lemma AnnouncedFits(n: nat)
    ensures Announced(n) <= n && RECORD_BYTES * Announced(n) <= (RECORD_BYTES * n) % 65536 <= RECORD_BYTES * n
    ensures Announced(n) == n <==> n <= MAX_RECORDS
  {}

  lemma WholeTableRoundTrip(dir: Directory, net: Network, table: Table, ips: seq<Word32>)
    requires Agree(Routes(table, table.Keys)) && Listing(table, ips) && |ips| <= MAX_RECORDS
    ensures Receive(dir, net, Routes(map[], {}), Framed(Records(table, ips))).table ==
              map ip | ip in table && table[ip].steamID != dir.self && net.Contains(ip)
                :: dir.Learned(table[ip].steamID, ip)
  {
    RouteUpdateRoundTrip(dir, net, table, ips);
    assert ips[..|ips|] == ips;
  }
}
