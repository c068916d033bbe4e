# ConnectTool verification model

A Dafny model of the parts of ConnectTool that carry its promises, and proofs that those parts keep them.
ConnectTool tunnels traffic over Steam: it gives every member of a lobby an IPv4 address in a virtual subnet,
routes packets between them, multiplexes local TCP connections over one Steam connection, and shows friends,
pings and chat.

`dafny verify dfyconfig.toml` checks everything.

## What is modelled

**Address negotiation** (`IpNegotiator.dfy`, `NegotiationSystem.dfy`, `Deliveries.dfy`, `Convergence.dfy`,
`Displacement.dfy`, `Subnet.dfy`, `SubnetLaws.dfy`, `NodeIdentity.dfy`). The class `IpNegotiator` follows the
handlers one by one; each method is proved to turn the node's state and outbox into what a reaction function
says. `NegotiationSystem` runs any number of such reactions against a bag of messages in flight, delivered in
any order. Clock readings are arbitrary integers, so a probe can time out whenever its reading says so, and
whether a stored conflict counts as stale is left entirely open: the code compares clocks of different machines
there, and what is proved about all runs holds for every outcome. The results: a duplicate address always has
its resolution in flight; only a strictly stronger node displaces another; a settled set of strong nodes stays
settled, and the next strongest joins it. `Convergence` proves that from every reachable state with room for
all, whatever the clocks read when probes are due, some order of events settles all nodes for good;
`Displacement` bounds how often a node can be moved in any run. `Deliveries` says of every event who is sent
what and who changes how, in the whole system. `Subnet` has the arithmetic of candidates and of the search for a
free address, on 32-bit words, and `SubnetLaws` what it comes to in plain numbers.

**The multiplexed sender** (`Framing.dfy`, `SendQueue.dfy`, `TunnelCalls.dfy`, `MultiplexManager.dfy`).
`SendQueue` says what can happen to the queues and proves conservation, order and fairness for every sequence of
operations; `TunnelCalls` groups the operations by the call they belong to. The class `MultiplexManager` keeps
the three containers of the source in step with such a history: its `Live()` holds between callbacks and says
that the queues are those the recorded calls lead to and that Steam was given what the history hands over, so
the theorems about histories apply to every state between callbacks, the calls of the TCP server included.
Steam's status, send result and clock are arbitrary on every query, and the class counts the answers that
refuse: a call or a flush holds packets back exactly if there was such an answer during it, or the link was
still blocked when it began.

**Tables that must agree** (`RouteTable.dfy`, `RouteLaws.dfy`, `VpnBridge.dfy`, `Heartbeat.dfy`,
`LeaseTiming.dfy`). The routing table against the negotiator's used set, the route update message and what a
receiver learns from it, the node table against its address index, and the timing of heartbeats against leases.

**Pings, friends and chat** (`PingMessages.dfy`, `PingRoundTrip.dfy`, `PingLaws.dfy`, `StableSort.dfy`,
`FriendsModel.dfy`, `ChatModel.dfy`). The printer and parser of the ping broadcast, the friend list whose sorted
view is patched in place, and the chat window with its pinned row.

`Words.dfy` (bytes, 32-bit words, byte orders) and `Options.dfy` support the others.

## Where the code does less than one would expect

Each of these is a theorem that gives the exact condition under which the code does meet the expectation, most
of them with a concrete input for which it does not.

- The fast path of `sendTunnelPacket` does not look at the queue, so it can send a packet ahead of older ones of
  the same client (`TunnelCalls.FastPathReorders`, `TunnelCalls.OrderByCalls`,
  `TunnelCalls.SaturatedCallsKeepOrder`).
- Registering a node again at another address leaves its former address in the heartbeat index
  (`Heartbeat.RenegotiationLeavesStaleEntry`, `Heartbeat.IndexAgreesExactly`).
- With more than 24 host bits some host addresses are never a candidate (`Subnet.CandidatesSweepSubnet`).
- A route update of more than 5461 entries announces a length modulo 2^16 (`RouteTable.RouteUpdateRoundTrip`).
- An address routed to one account can go to another within one route update, when an earlier record of it moves
  the first account elsewhere, and only then (`RouteLaws.VacatedAddressChangesHands`,
  `RouteLaws.HandsChangeOnlyByMove`).
- A relay is cut at its first semicolon, and what follows is read as records of their own. A list that names
  each account once comes through exactly when no relay has a semicolon; for other lists the exact condition
  also looks at which pings are superseded (`PingRoundTrip.DistinctPingsComeThroughExactly`,
  `PingRoundTrip.PingsComeThroughExactly`, `PingRoundTrip.SpilledRecordIsStored`).
- With a Steam ID listed twice, setting an invite cooldown can patch different entries in the two lists
  (`Friends.DuplicateIdGoesStale`, `Friends.PatchKeepsViewExactly`).
- The row shown as pinned can be another message with the same sender and text: when the pinned one has left the
  window, and also while it is there if one of the others has no valid time (`Chat.PinFindsItself`,
  `Chat.OtherMomentIsFlagged`, `Chat.UntimedLookAlikeIsFlagged`).

Methods of classes change state, so their contracts name the state before and after; what the new state is good
for is proved about the functions they are tied to.

## Model

| member | source | states |
|---|---|---|
| `NegotiationSystem.QuiescentUniqueness` | net/ip_negotiator.cpp:171-296 | In every state any run can reach from the start, two nodes that have claimed the same address have a message in flight that will make the weaker one give way; so with nothing in flight all claimed addresses are pairwise different |
| `NegotiationSystem.DuplicatesResolvingRun` | net/ip_negotiator.cpp:171-296 | The inductive core of that: every run keeps a resolving message in flight for every duplicate |
| `NegotiationSystem.ResolvingStep` | net/ip_negotiator.cpp:171-296 | One arbitrary event (delivery, timeout, re-announcement, ...) keeps a resolver in flight or ends the duplicate |
| `NegotiationSystem.ResolverConsumed` | net/ip_negotiator.cpp:261-288 | Delivering the resolver itself either displaces the weaker node or puts a forced release to it on the wire |
| `NegotiationSystem.HandlerShape` | net/ip_negotiator.cpp:130-320 | Whatever happens to a node, it keeps what it has, claims its candidate, moves on, or starts; and every message it sends is signed by itself and names the address it then stands for |
| `NegotiationSystem.StepEvolves` | net/ip_negotiator.cpp:130-320 | What one step means for everybody else: other nodes do not change, new packets are the actor's own, new stored conflicts came with a packet on the actor's candidate |
| `NegotiationSystem.DisplacedExactlyByStronger` | net/ip_negotiator.cpp:149-296 | A started node gives up its candidate or address if and only if the event brings it the objection of a strictly stronger node; in every other case offset, candidate and address stay |
| `NegotiationSystem.StrongestKeepsFirstCandidate` | net/ip_negotiator.cpp:149-296 | Over every run the node with the globally largest identity never raises its offset and holds its first candidate for ever |
| `NegotiationSystem.SettledStaySettled` | net/ip_negotiator.cpp:130-296 | For a priority-upward-closed set of nodes with different claimed addresses: no run whatever moves a member if and only if no packet in flight from one member names the address of a weaker one |
| `NegotiationSystem.SettledRun` | net/ip_negotiator.cpp:130-296 | Such a set stays settled through every run, and every member keeps its address |
| `NegotiationSystem.ReadyNodeJoins` | net/ip_negotiator.cpp:130-188 | The strongest node outside a settled set, probing an address no member holds or objects to, waits on that candidate or has claimed it and joined the set, after any run |
| `NegotiationSystem.ReadyTimeoutClaims` | net/ip_negotiator.cpp:130-188 | Its next elapsed timeout claims the candidate and the enlarged set is settled |
| `NegotiationSystem.ReselectAvoidsSettled` | net/ip_negotiator.cpp:52-69 | A node that knows the settled addresses and still sees a free host restarts on an address no settled node holds |
| `Convergence.CanAlwaysSettle` | net/ip_negotiator.cpp:52-296 | From every state with authentic messages, whatever is in flight, however many nodes, and whatever the clocks read when a probe is due: if each node sees room for all, some order of starts, deliveries, timeouts and re-announcements, with the bridge marking claimed and announced addresses, leads to all nodes holding different addresses that no run can take away |
| `Convergence.EveryRunCanSettle` | net/ip_negotiator.cpp:52-296 | So no run from the start leads into a state the negotiation cannot still settle from, provided that in that state each node sees room for all |
| `Convergence.NextCanJoin` | net/ip_negotiator.cpp:130-296 | One round of that schedule: the strongest node outside the settled set receives what is in flight to it, is reminded of the settled addresses, and has claimed a free one after at most two due timeouts, however arbitration goes |
| `Convergence.MovesAreRuns` | steam/steam_vpn_bridge.cpp:350-366 | The schedules are runs of the system: each event followed by the mark the bridge sets |
| `Displacement.DisplacementsBounded` | net/ip_negotiator.cpp:71-296 | In every run, a node behind a settled set that tells it only of addresses it holds is moved at most twice as often as the subnet has hosts, as long as some host stays free in its view |
| `Displacement.HostComesUp` | net/ip_negotiator.cpp:71-88 | From any offset on, every host becomes the candidate within twice as many steps as there are hosts, across the 24-bit and the 32-bit wrap |
| `Convergence.RoomByCount` | net/ip_negotiator.cpp:90-115 | The room those theorems ask for is there if the nodes, together with the addresses a node knows as used or has announcements of, do not outnumber the hosts of the subnet |
| `Convergence.SearchAvoids` | net/ip_negotiator.cpp:90-115 | A node that knows all settled addresses as used finds one that none of them holds |
| `Deliveries.ProbeRequestHeard` | net/ip_negotiator.cpp:197-230 | In any system: a probe for an address is answered, to the asker and to nobody else, by the node that holds the address and by a stronger prober of it; a prober of it that is not stronger restarts; every other node ignores it. Whole new wire and whole new node list in each case |
| `Deliveries.ProbeResponseHeard` | net/ip_negotiator.cpp:232-249 | A response is stored after the earlier ones by a node probing that address, and changes nothing else anywhere |
| `Deliveries.AnnouncementHeard` | net/ip_negotiator.cpp:251-273 | An announcement of the address a node holds makes it restart, or send the announcer exactly one release if it is stronger; any other marks the address used |
| `Deliveries.ReleaseHeard` | net/ip_negotiator.cpp:275-296 | A release makes a holder or prober of the address that is not stronger than the winner restart, and changes nothing otherwise |
| `Deliveries.TimeoutElapses` | net/ip_negotiator.cpp:130-195 | Before 500 ms, or outside a probe, nothing happens; then the node restarts exactly if a conflict heard of less than 180 s ago is from a node it does not beat, and otherwise holds its candidate, sends a release to the sender of each such conflict and the announcement to everybody else, and nothing more |
| `Deliveries.BeginProbes` | net/ip_negotiator.cpp:52-69 | What starting means: the candidate of the current offset skipping used addresses, no conflicts, and the probe for it sent to everybody else and nobody twice |
| `Deliveries.AnnouncesAgain` | net/ip_negotiator.cpp:298-308 | A holder that announces tells everybody else its address, and no node changes |
| `Deliveries.AnnouncesToPeer` | net/ip_negotiator.cpp:310-320 | A new peer is told the address held, if there is one |
| `Deliveries.ReleasesInOrder` | net/ip_negotiator.cpp:149-169 | One release for each conflict heard of less than 180 s ago, in the order they came in |
| `IpNegotiation.IpNegotiator.FindNextAvailableIP` | net/ip_negotiator.cpp:90-115 | The in-place search loop returns what the search function, proved complete in `Subnet`, returns |
| `IpNegotiation.IpNegotiator.StartNegotiation` | net/ip_negotiator.cpp:52-69 | The whole new state and the one probe broadcast: conflicts cleared, a fresh candidate from the offset, skipping used addresses |
| `IpNegotiation.IpNegotiator.Arbitrate` | net/ip_negotiator.cpp:149-169 | The claim succeeds exactly when every conflict that is not stale comes from a weaker node, and then releases go to the senders of exactly those |
| `IpNegotiation.ReleasesExactly` | net/ip_negotiator.cpp:163-174 | A claim sends a release to the sender of every conflict that is not stale, and to nobody else |
| `IpNegotiation.IpNegotiator.CheckTimeout` | net/ip_negotiator.cpp:130-195 | Whole reaction to a timeout: too early, claim with releases then announcement, or reselection with the next offset |
| `IpNegotiation.IpNegotiator.HandleProbeRequest` | net/ip_negotiator.cpp:197-230 | Whole reaction to a probe, as `Deliveries.ProbeRequestHeard` spells it out: a holder answers, a stronger prober answers, a weaker prober moves on |
| `IpNegotiation.IpNegotiator.HandleProbeResponse` | net/ip_negotiator.cpp:232-249 | A conflict is stored only while probing that very address |
| `IpNegotiation.IpNegotiator.HandleAddressAnnounce` | net/ip_negotiator.cpp:251-273 | Whole reaction to an announcement: a conflicting holder releases the weaker announcer or moves on, anybody else marks the address used |
| `IpNegotiation.IpNegotiator.HandleForcedRelease` | net/ip_negotiator.cpp:275-296 | Whole reaction to a release: only a holder or prober of that address that is not stronger than the winner moves on |
| `IpNegotiation.IpNegotiator.SendAddressAnnounceTo` | net/ip_negotiator.cpp:310-320 | Only a node with a claimed address announces it to a new peer |
| `IpNegotiation.IpNegotiator.Reset` | net/ip_negotiator.cpp:27-40 | Everything but the identity, the network and the probe start returns to the initial state |
| `NodeIdentity.Compare` | net/node_identity.cpp:29-39 | The byte loop returns the sign of the difference of the two identities read as 256-bit big-endian numbers, and zero only for equal ones |
| `NodeIdentity.PriorityIsStrictTotalOrder` | net/node_identity.h:11-13 | Priority is irreflexive, transitive, and decides between any two different identities |
| `NodeIdentity.PriorityByFirstDifference` | net/node_identity.cpp:29-39 | The first byte that differs decides, the larger one having priority |
| `Subnet.NextAvailableComplete` | net/ip_negotiator.cpp:90-115 | For every contiguous mask with at least two host bits the search ends on an address of the subnet whose host part is neither zero nor all ones, and that address is in use if and only if every host address is |
| `Subnet.NextAvailableNeverBroadcast` | steam/steam_vpn_bridge.cpp:655-665 | With a prefix of at least eight bits and a network outside 224/4, the address found is never one the bridge would flood (multicast range: section 4 of RFC 1112) |
| `Subnet.CandidatesSweepSubnet` | net/ip_negotiator.cpp:71-88 | The offsets below 2^24 produce every host address if and only if the subnet has at most 24 host bits |
| `Subnet.ConsecutiveCandidatesDiffer` | net/ip_negotiator.cpp:71-88 | Raising the offset by one always changes the candidate, at the 24-bit and the 32-bit wrap too |
| `Subnet.CandidateIgnoresHighBits` | net/ip_negotiator.cpp:71-88 | Offsets equal modulo 2^24 give the same candidate, so the 32-bit wrap of the offset is harmless |
| `SubnetLaws.CandidateExactly` | net/ip_negotiator.cpp:71-88 | The candidate in numbers: the identity as a big-endian number plus the offset, modulo 2^24, modulo the number of hosts, counted from the first host of the block of 2^hostBits addresses around the network address |
| `SubnetLaws.HashIsLow24` | net/ip_negotiator.cpp:72-75 | The three bytes taken from the identity are its number modulo 2^24 |
| `SubnetLaws.NextAvailableIsFirstFree` | net/ip_negotiator.cpp:90-115 | The search returns the first address not in use at or after the start, going round hosts 1 to 2^hostBits - 2 once; every address before it is in use, and if all are it is back where it began |
| `SubnetLaws.TinySubnets` | net/ip_negotiator.cpp:90-115 | With a /31 or /32 mask the search offers one address, in use or not |
| `SubnetLaws.ContainsExactly` | steam/steam_vpn_bridge.cpp:324-326 | An address is in the subnet if and only if it shares the block of 2^hostBits addresses with the network address |
| `SubnetLaws.IsBroadcastExactly` | steam/steam_vpn_bridge.cpp:655-665 | Flooded are all ones, the last address of the block, and 224.0.0.0 to 239.255.255.255, and nothing else |
| `Framing.StreamRoundTrip` | net/multiplex_manager.cpp:112-126 | For every 6-byte id and byte string, chunking, framing and parsing give back the id, the data type, and payloads of at most 1100 bytes whose concatenation is the original |
| `Framing.ParseBuilt` | net/multiplex_manager.cpp:308-319 | Parsing what was built gives back id, type and payload, for every type |
| `Framing.BuildParsed` | net/multiplex_manager.cpp:308-319 | The receiver never looks at the byte after the id: a data packet is what the sender would have built if and only if that byte is NUL |
| `Framing.ReassembleFramed` | net/multiplex_manager.cpp:291-297 | The payloads of the framed chunks join to the original byte string |
| `Framing.PacketExactly` | net/multiplex_manager.cpp:112-126 | Byte by byte: six of id, a zero, the type with its least significant byte first, then the payload of a type 0 packet |
| `Framing.ParseExactly` | net/multiplex_manager.cpp:308-319 | For any bytes: fewer than eleven are refused, type 0 is data from byte 11 on, type 1 is a disconnect, anything else is unknown |
| `Framing.ChunksExactly` | net/multiplex_manager.cpp:291-297 | The k-th piece is the k-th stretch of 1100 bytes or what is left of it; as many as it takes, and one empty piece for no bytes |
| `SendQueue.Conservation` | net/multiplex_manager.cpp:174-231 | After any operations, for a client not dropped, packets handed to Steam plus packets queued are, as a multiset, the packets produced |
| `SendQueue.OrderExactly` | net/multiplex_manager.cpp:174-306 | Sent followed by queued is in production order if and only if no packet was ever sent directly past a non-empty queue of its client |
| `SendQueue.WellFormedAll` | net/multiplex_manager.cpp:174-231 | After any operations the order lists once each exactly the clients with a non-empty queue |
| `SendQueue.ServedWithinPosition` | net/multiplex_manager.cpp:190-231 | Whatever else is produced, sent or dropped meanwhile, the head packet of the client at position k of the order leaves its queue after at most k packets of other clients have left theirs |
| `SendQueue.BackloggedClientsAlternate` | net/multiplex_manager.cpp:190-231 | Two clients that stay backlogged are served alternately: the numbers of packets that leave their queues never differ by more than one |
| `SendQueue.HandedAreSentOrDirect` | net/multiplex_manager.cpp:190-306 | What else is handed to Steam meanwhile is exactly what was sent directly: packets handed over are packets that left a queue plus direct sends |
| `SendQueue.PushExactly` | net/multiplex_manager.cpp:174-188 | A pushed packet goes to the end of its own queue, and its client to the end of the order if it had none; no other queue changes |
| `SendQueue.RotateExactly` | net/multiplex_manager.cpp:196-230 | A rotation hands over the head of the first client's queue and puts the client at the end of the order if it has more |
| `SendQueue.DropExactly` | net/multiplex_manager.cpp:86-92 | A dropped client's queue is emptied and the client struck from the order; the others keep their packets and places |
| `TunnelCalls.OrderByCalls` | net/multiplex_manager.cpp:274-306 | Over any history of calls, flushes and removals: production order holds for a client if and only if no call that began with packets queued for it sent one directly; sent plus queued is always what was produced |
| `TunnelCalls.SaturatedCallsKeepOrder` | net/multiplex_manager.cpp:274-306 | If every call that begins with packets queued for the client finds the link saturated, the client's packets stay in production order |
| `TunnelCalls.FastPathReorders` | net/multiplex_manager.cpp:280-288 | Without that they do not: for any two payloads, one data packet queued and the next call's packet sent directly leave the sender in the opposite order |
| `TunnelCalls.CallOvertakesExactly` | net/multiplex_manager.cpp:274-306 | One call breaks the order if and only if it sends a packet directly although its client has packets queued |
| `TunnelCalls.TunnelExactly` | net/multiplex_manager.cpp:274-306 | A call produces its frames in order, hands over the first ones and appends the rest to its client's queue |
| `Multiplexing.MultiplexManager.IsSendSaturated` | net/multiplex_manager.cpp:429-459 | Saturated exactly if the reading in the call was at the high-water mark, or the sender was blocked and there was no reading at or below the low-water mark; no reading is taken only while the back-off runs; the flag on exit is the answer, and the back-off doubles up to 200 ms, or falls back to 5 ms, as in the source |
| `Multiplexing.MultiplexManager.TrySendPacket` | net/multiplex_manager.cpp:128-172 | For a packet that is not empty and an unblocked sender: false, with the sender blocked, exactly if Steam refused during the call, by a reading at the high-water mark or by its send result; otherwise Steam was given the packet and the sender is unblocked. An empty one is not sent |
| `Multiplexing.MultiplexManager.EnqueuePacket` | net/multiplex_manager.cpp:174-188 | One packet is appended to its client's queue, the three containers keep agreeing, and a flush is armed |
| `Multiplexing.MultiplexManager.PushPacket` | net/multiplex_manager.cpp:277-289 | A packet is queued if the call is blocked already, the link is saturated or Steam refuses it, and otherwise sent; a backlog is armed |
| `Multiplexing.MultiplexManager.SendTunnelPacket` | net/multiplex_manager.cpp:274-306 | The frames of the data, in order, the first ones sent directly and the rest queued; all are sent directly, and the sender is unblocked afterwards, exactly if the link was not saturated and Steam refused nothing during the call |
| `Multiplexing.MultiplexManager.SendFor` | net/multiplex_manager.cpp:274-306 | sendTunnelPacket called from outside, as the TCP server does, keeps the whole invariant and is recorded with whether it found the link saturated |
| `Multiplexing.MultiplexManager.FlushPendingPackets` | net/multiplex_manager.cpp:190-231 | Head packets leave in turn. A flush that does not find the link saturated ends blocked exactly if Steam refused something during it; otherwise the whole backlog has been sent and every paused reader of a live client reads again. It finds the link saturated only by a refusal or because the sender was blocked |
| `Multiplexing.MultiplexManager.OnTimer` | net/multiplex_manager.cpp:253-271 | The timer callback keeps the whole invariant; without an error the same law of flushing holds of it, with one nothing is sent; the flush is armed again exactly if something is still queued |
| `Multiplexing.MultiplexManager.OnRead` | net/multiplex_manager.cpp:389-415 | The read callback keeps it too: the bytes go out directly unless Steam refuses, the reader pauses exactly if that leaves the sender blocked, and it is recorded as one tunnel call or one removal |
| `Multiplexing.MultiplexManager.RemoveClient` | net/multiplex_manager.cpp:67-100 | A removal drops exactly that client and its queue; when that empties the backlog, and only then, the sender is unblocked and the paused readers resume |
| `Multiplexing.MultiplexManager.HandleTunnelPacket` | net/multiplex_manager.cpp:308-387 | Payload is delivered exactly when the client exists or can be created; otherwise a disconnect goes back, unless the attempt failed just before; the set of clients afterwards is stated for every case |
| `Multiplexing.MultiplexManager.ResumePausedReads` | net/multiplex_manager.cpp:417-427 | Every paused reader whose client still exists reads again, and none stays paused |
| `RouteTable.RoutesAgree` | steam/steam_vpn_bridge.cpp:398-498 | From an empty table on, over every sequence of updates, expiries and departures: keys are the entries' addresses, no account has two addresses, every routed address is marked used |
| `RouteTable.CandidateIsUnrouted` | net/ip_negotiator.cpp:90-115 | So a freshly chosen candidate is a routed address only if every host address is marked used |
| `RouteTable.RouteUpdateRoundTrip` | steam/steam_vpn_bridge.cpp:304-333 | For a table of any size, the update makes an empty receiver learn exactly the sender's routes among the records the 16-bit length announces, minus its own and minus those outside its subnet; all are announced if and only if there are at most 5461 |
| `RouteTable.WholeTableRoundTrip` | steam/steam_vpn_bridge.cpp:500-531 | Up to 5461 entries the receiver learns the whole table, minus its own routes and those outside the subnet |
| `RouteTable.RecordRoundTrip` | steam/steam_vpn_bridge.cpp:307-311 | A 12-byte record anywhere in a payload gives back account and address |
| `RouteLaws.RoutedExactly` | steam/steam_vpn_bridge.cpp:398-498 | After any table events, from any consistent table: an entry is routed if and only if it was, or an event routed it, and no later event ended it by a newer entry for its address or account, by expiry of its address, or by its account leaving |
| `RouteLaws.EventExactly` | steam/steam_vpn_bridge.cpp:398-493 | The same for one event, and which addresses it marks used or frees |
| `RouteLaws.LearnExactly` | steam/steam_vpn_bridge.cpp:313-330 | One record with any table: an address already routed never changes hands; a record is taken over exactly if its account is not our own, its address is not routed, and it lies in the subnet, and then it ends only its account's other entry |
| `RouteLaws.LearnAllExactly` | steam/steam_vpn_bridge.cpp:304-333 | An update received by any table: an entry stays exactly if no record taken over moves its account, a new one is there exactly if the last record that moved its account says so, and exactly the addresses taken over become used |
| `RouteLaws.HandsChangeOnlyByMove` | steam/steam_vpn_bridge.cpp:318-330 | In a whole update a routed address loses its entry only to a record that moves the entry's own account elsewhere |
| `RouteLaws.VacatedAddressChangesHands` | steam/steam_vpn_bridge.cpp:318-330 | Failing input for more than that: one record moves an account off its address, and the next gives that address to another account |
| `RouteLaws.RoutedTeachesNothing` | steam/steam_vpn_bridge.cpp:318-323 | An update that names only routed addresses changes nothing, whoever it gives them to |
| `RouteLaws.ReceiveExactly` | steam/steam_vpn_bridge.cpp:245-333 | For any message: shorter than three bytes, shorter than its length, or not of type 3, it does nothing; otherwise its whole records are learned from |
| `RouteLaws.FieldsExactly` | steam/steam_vpn_bridge.cpp:307-311 | A record byte by byte: the account with its least significant byte first, the address with its most significant byte first |
| `RouteLaws.FramedExactly` | steam/steam_vpn_bridge.cpp:500-531 | A message sent: type 3, the payload's length modulo 2^16, and the payload |
| `VpnBridging.VpnBridge.UpdateRoute` | steam/steam_vpn_bridge.cpp:470-493 | The account's other addresses leave the table, the entry is stored, the address is marked used; the table keeps agreeing with the used set |
| `VpnBridging.VpnBridge.OnUserLeft` | steam/steam_vpn_bridge.cpp:398-417 | Every address of the account leaves table and used set, the nodes routed there leave both heartbeat tables, and nothing else does; if it is the local user, the bridge is no longer running and has no address |
| `VpnBridging.VpnBridge.OnNodeExpired` | steam/steam_vpn_bridge.cpp:465-468 | Only the expired address leaves, from both |
| `VpnBridging.VpnBridge.OnRouteUpdate` | steam/steam_vpn_bridge.cpp:304-333 | The record loop learns, from any table, what the decoding function learns, of which `RouteLaws.LearnAllExactly` says which entries stay and which records are taken over |
| `VpnBridging.VpnBridge.OnRouteMessage` | steam/steam_vpn_bridge.cpp:245-333 | Header check and record loop together are the receiver of the round trip; a short or foreign message changes nothing |
| `VpnBridging.VpnBridge.OnAddressAnnounce` | steam/steam_vpn_bridge.cpp:350-366 | The negotiator reacts first, with its whole new state and outbox, then the announcer is routed; a whole-table update goes out if and only if the address was not routed before |
| `VpnBridging.VpnBridge.BroadcastRouteUpdate` | steam/steam_vpn_bridge.cpp:500-531 | The message lists the whole table once, in ascending address order |
| `VpnBridging.NegotiatorKeepsAgreement` | net/ip_negotiator.cpp:130-296 | No reaction of the negotiator to a message or a timeout takes a routed address out of the used set |
| `VpnBridging.LeavingNodes` | steam/steam_vpn_bridge.cpp:398-411 | When an account leaves, exactly the nodes routed under it leave the node table |
| `Heartbeat.IndexAgreesExactly` | net/heartbeat_manager.cpp:101-178 | Over every history the address index stays the exact inverse of the node table's address column if and only if no stored node took another's address or changed its own |
| `Heartbeat.InverseStep` | net/heartbeat_manager.cpp:125-168 | The same for one event, in both directions |
| `Heartbeat.NodeExactly` | net/heartbeat_manager.cpp:101-178 | What each event does to any node: a sweep removes it exactly if it is not local and was last heard of 360 s ago or more; a heartbeat of a known node moves only its time |
| `Heartbeat.SilentNodeExactly` | net/heartbeat_manager.cpp:101-123 | Over any history in which nothing is heard of a node: it is still there, unchanged, if and only if it was not unregistered and, unless it is local, no sweep came 360 s or more after its last heartbeat |
| `Heartbeat.AddressExactly` | net/heartbeat_manager.cpp:101-178 | What each event does to any index entry: a stored node takes its address, a node that leaves takes the entry of its address with it |
| `Heartbeat.RenegotiationLeavesStaleEntry` | net/heartbeat_manager.cpp:146-159 | Counterexample without that condition: registering a node again at a new address leaves the old address in the index |
| `Heartbeat.HeartbeatManager.CheckExpiredLeases` | net/heartbeat_manager.cpp:101-123 | The sweep evicts and reports exactly the non-local nodes of age at least the lease expiry, each once, from both tables |
| `Heartbeat.HeartbeatManager.HandleHeartbeat` | net/heartbeat_manager.cpp:125-144 | A known node only has its lease renewed; a new one is stored in both tables |
| `Heartbeat.HeartbeatManager.RegisterNode` | net/heartbeat_manager.cpp:146-159 | The node replaces any former entry and its address is indexed |
| `Heartbeat.HeartbeatManager.UnregisterNode` | net/heartbeat_manager.cpp:161-168 | The node leaves both tables, and an unknown one changes nothing |
| `Heartbeat.HeartbeatManager.FindNodeByIP` | net/heartbeat_manager.cpp:170-178 | While the tables agree, the lookup finds the node at that address if there is one, and reports that there is none otherwise |
| `LeaseTiming.SendsSpaced` | net/heartbeat_manager.cpp:67-83 | If wake-ups are at most 1000 + d ms apart, consecutive heartbeats are at least 60000 and less than 61000 + d ms apart |
| `LeaseTiming.SendsExactly` | net/heartbeat_manager.cpp:67-83 | Whatever the wake-ups: after each of them the last heartbeat is less than 60000 ms old, and one goes out at a wake-up exactly if otherwise it would not be |
| `LeaseTiming.HeartbeatSender.HeartbeatLoop` | net/heartbeat_manager.cpp:67-83 | With an address the loop sends at exactly the wake-ups the send rule names, and after the last wake-up no heartbeat is overdue; without an address it never sends. The time of the last heartbeat is kept |
| `LeaseTiming.LiveNodeNeverEvicted` | net/heartbeat_manager.cpp:101-144 | Over every timely history of the node table: a node whose heartbeats arrive with at most four in a row missing, and with 5 * (61000 + d) plus the spread of the delays below 360000 ms, is evicted by no sweep between its first and its last heartbeat |
| `LeaseTiming.LivePeerKeepsLease` | net/vpn_protocol.h:91-98 | A peer that misses at most four heartbeats in a row never sees the lease run out, provided 5 * (61000 + d) plus the spread of the delays is below 360000 ms |
| `PingRoundTrip.MessageTeaches` | steam/steam_room_manager.cpp:682-756 | For every list of pings and every table, whatever the relays contain: parsing the printed message stores for each known ping in turn its relay up to the first semicolon, and then the records the rest of the relay reads as |
| `PingRoundTrip.PingsComeThroughExactly` | steam/steam_room_manager.cpp:682-756 | For every list and every table a parser can have built: the table becomes what the pings say, the last known one of each account winning, if and only if the last known relay of each account has no semicolon, and what earlier relays spill is overwritten later or repeats what is to be learned |
| `PingRoundTrip.DistinctPingsComeThroughExactly` | steam/steam_room_manager.cpp:682-756 | For lists that name each account once, as the host builds them: the pings come through if and only if no known one has a semicolon in its relay |
| `PingRoundTrip.PingRoundTrip` | steam/steam_room_manager.cpp:682-756 | For relays without a semicolon, colons allowed, and any table: parsing the printed message updates the table exactly as the known pings do in order, the last one winning |
| `PingRoundTrip.SpilledRecordIsStored` | steam/steam_room_manager.cpp:721-755 | Failing input: a relay that continues with a semicolon and a printed ping is cut, and the ping is stored for an account the host never listed |
| `PingRoundTrip.SupersededRelayIsHarmless` | steam/steam_room_manager.cpp:721-755 | An input with a semicolon that does come through, because a later ping of the account supersedes it |
| `PingLaws.MessageExactly` | steam/steam_room_manager.cpp:716-756 | A message without the prefix teaches nothing; with it, the parts between semicolons are worked through from first to last |
| `PingLaws.PartExactly` | steam/steam_room_manager.cpp:727-752 | A part a:b:c, with any table and any c, colons included: stored with relay c for the account a reads as, modulo 2^64 if negative, exactly if a is a number other than 0 of magnitude below 2^64 and b one from 0 to 2^31 - 1; otherwise nothing changes |
| `PingLaws.ShortPartIgnored` | steam/steam_room_manager.cpp:727-737 | A part with fewer than two colons changes nothing |
| `PingLaws.NumberExactly` | steam/steam_room_manager.cpp:739-740 | How a number is read: blanks skipped, one optional sign, the longest run of digits; what follows is ignored, and without digits there is no number |
| `PingLaws.LeadingDigit` | steam/steam_room_manager.cpp:739-740 | The value of digits: the first counts for the highest power of ten |
| `PingLaws.TextExactly` | steam/steam_room_manager.cpp:682-714 | One more known ping adds id, ping and relay with colons between, and a semicolon before them if there is text already; an unknown one adds nothing |
| `PingLaws.LearnedIsLast` | steam/steam_room_manager.cpp:682-714 | What members are meant to learn of an account is its last known ping |
| `PingLaws.UnknownStays` | steam/steam_room_manager.cpp:682-714 | Of an account without a known ping they are meant to keep what they have |
| `PingMessages.BroadcastPings` | steam/steam_room_manager.cpp:682-714 | The printing loop sends the known pings joined by semicolons, and nothing if there is none |
| `PingMessages.PingReceiver.HandlePingMessage` | steam/steam_room_manager.cpp:716-756 | The cursor loop applies the parts of the message in order, and a message without the prefix changes nothing |
| `PingRoundTrip.AcceptPrinted` | steam/steam_room_manager.cpp:728-750 | A printed part is accepted with its own id, ping and relay, except for id zero |
| `PingMessages.ParsePrinted` | steam/steam_room_manager.cpp:739-740 | Reading a printed number gives the number back |
| `Friends.PatchKeepsViewExactly` | src/friends_model.cpp:76-102 | After a cooldown is set in both lists, what is shown equals what would be computed if and only if both patches hit the same entry, or change neither shown row |
| `Friends.AlwaysFreshExactly` | src/friends_model.cpp:47-123 | A run stays fresh throughout if and only if each cooldown it sets meets that condition when it is set |
| `Friends.UniqueIdsStayFresh` | src/friends_model.cpp:47-123 | With no Steam ID listed twice, what is shown equals what would be computed after any sequence of lists, filters and cooldowns |
| `Friends.DuplicateIdGoesStale` | src/friends_model.cpp:76-102 | Counterexample with one Steam ID listed twice, for every case folding |
| `Friends.ViewIsTheStableArrangement` | src/friends_model.cpp:125-145 | The view is the only arrangement of the matching entries that is sorted and keeps the received order among entries the comparison does not tell apart |
| `Friends.ViewShowsMatches` | src/friends_model.cpp:125-155 | An entry is shown if and only if it was received and the filter is empty or occurs somewhere in the folded name, and as often as it was received |
| `Friends.ViewShowsPrefixMatchesFirst` | src/friends_model.cpp:132-143 | They are shown by presence; within one presence names that begin with the filter come first; and among these, as among the others, no name stands before one that precedes it |
| `Friends.ViewKeepsReceivedOrder` | src/friends_model.cpp:132-143 | Two shown entries of one presence that both begin with the filter, or both do not, and neither of whose names precedes the other, stand in the order they were received in |
| `Friends.LessExactly` | src/friends_model.cpp:132-143 | When one shown entry goes before another: smaller presence rank, then beginning with the filter, then the folded name |
| `Friends.OccursExactly` | src/friends_model.cpp:141-147 | A key occurs if and only if it is the stretch of the text at some position |
| `Friends.PrecedesExactly` | src/friends_model.cpp:142-143 | One name precedes another if and only if at the first difference it ends or has the smaller code unit |
| `Friends.OpExactly` | src/friends_model.cpp:47-123 | Each operation in full: a new list or a new filter text is taken over and the view is computed again with the folded text; the same text changes nothing; a cooldown reaches only the first entry with the id in each list |
| `Friends.RunShowsExactly` | src/friends_model.cpp:47-155 | After any run with no Steam ID listed twice an entry is shown if and only if it is in the list and the filter text set last, folded, occurs in its folded name |
| `Friends.OrderIsStrictWeak` | src/friends_model.cpp:132-143 | The comparison is a strict weak order, as a sort requires |
| `Friends.FriendsModel.FilterEntries` | src/friends_model.cpp:125-145 | The filtering loop and the stable sort compute the view, which shows a received entry if and only if the filter is empty or occurs in its folded name |
| `Friends.FriendsModel.SetFriends` | src/friends_model.cpp:47-74 | Whole new state; the view is fresh whatever it was before, the signal is a reset exactly if the number of entries or of rows changed, and otherwise names all rows, if there are any |
| `Friends.FriendsModel.SetFilter` | src/friends_model.cpp:104-123 | Whole new state; an unchanged text changes nothing, a new one makes the view fresh; the signal is a reset exactly if the number of rows changed, and otherwise names all rows, if there are any |
| `Friends.FriendsModel.SetInviteCooldown` | src/friends_model.cpp:76-102 | Both patches; returns true and names the row if and only if a shown row changed; fresh afterwards exactly under the stated condition |
| `StableSort.StableSortUnique` | src/friends_model.cpp:132-143 | A sequence is the result of the stable sort if and only if it is sorted and keeps the order inside every class of equivalent elements |
| `StableSort.SortPatchExactly` | src/friends_model.cpp:76-102 | Patching the first hit and sorting commute if and only if sorting brings no other hit in front of it, or the patch changes neither |
| `Chat.ChatModel.FindPinnedEntryIndex` | src/chat_model.cpp:124-150 | The row found is the first match that cannot be compared in time, if there is one, and otherwise the first of the matches closest in time; none if and only if nothing matches |
| `Chat.PinnedRowUnique` | src/chat_model.cpp:124-150 | There is only one such row |
| `Chat.PinnedRowExactly` | src/chat_model.cpp:124-150 | The chosen row has the pinned sender and text and wins over every other that has: a row without a distance in time wins over one with, a smaller distance over a larger, and an earlier row over a later; none is chosen exactly if no row has them |
| `Chat.ChatModel.FlagExactly` | src/chat_model.cpp:152-188 | In every state exactly that row is flagged |
| `Chat.ChatModel.ShowsLatest` | src/chat_model.cpp:50-68 | In every state the window has the last min(200, n) messages appended, field by field as they were appended except for the flag |
| `Chat.PinFindsItself` | src/chat_model.cpp:124-198 | If the pinned message has a valid time, the row chosen is that message, time included, if and only if no row with its sender and text is untimed and one of them has its time; if it has none, the first row with its text is chosen. By what sameMessage compares, the row is the pinned message if and only if any row is |
| `Chat.ChatModel.FlagShowsPinned` | src/chat_model.cpp:152-188 | The same in every state, of the flagged row and of the last min(200, n) messages appended since the last clear |
| `Chat.ChatModel.SomeRowFlagged` | src/chat_model.cpp:124-150 | In every state some row is flagged if and only if a message in the window has the pinned sender and text |
| `Chat.OtherMomentIsFlagged` | src/chat_model.cpp:133-147 | Failing input: after 200 later messages with the same sender and text, the first of those is flagged |
| `Chat.UntimedLookAlikeIsFlagged` | src/chat_model.cpp:138-140 | Failing input: the pinned message is in the window, but an untimed one with its text before it is flagged |
| `Chat.ChatModel.UpdatePinnedFlags` | src/chat_model.cpp:152-188 | Afterwards exactly the pinned row is flagged; the emitted ranges are ascending, disjoint, not adjacent, and cover exactly the rows whose flag changed |
| `Chat.Coalesce` | src/chat_model.cpp:171-187 | Coalescing an ascending list of rows covers exactly those rows with separated ranges |
| `Chat.CoalescedIsShortest` | src/chat_model.cpp:171-187 | No list of ranges covering the same rows is shorter |
| `Chat.WindowSlides` | src/chat_model.cpp:54-66 | Appending and dropping the overflow turns the last min(200, n) messages into the last min(200, n + 1) |
| `Chat.ChatModel.AppendMessage` | src/chat_model.cpp:50-68 | The entries are the last min(200, n) messages appended since the last clear, correctly flagged; at most one row leaves a full window; the message goes in flagged exactly if it came so or has the pinned sender and text and the same time or one of the two is untimed; and the ranges name the rows whose flag then differs |
| `Chat.ChatModel.SetPinnedMessage` | src/chat_model.cpp:88-98 | The flag moves to the new pinned row; a change is reported exactly when nothing was pinned or sender, text, or two valid times differ |
| `Chat.ChatModel.ClearPinnedMessage` | src/chat_model.cpp:100-107 | No row is flagged afterwards, and the ranges name exactly the row that was |
| `Chat.ChatModel.Clear` | src/chat_model.cpp:70-86 | Window, history and pin are empty afterwards |

## Left out

- The Steam SDK, boost::asio, Qt signals beyond the row ranges, sockets, TUN devices and shell commands: calls
  into them are parameters, arbitrary results, or the outbox of messages.
- Threads: a handler or callback runs to its end before the next one. The source runs handlers on several
  threads, and the flush loop releases its lock while it holds a reference into a queue.
- Clocks: integers without bound, one reading for each handler; the overflow of a 64-bit difference is not modelled.
- Membership: the theorems about runs fix the set of nodes, every node knows every other as a peer, and the
  network delivers each message once, in any order. Joining, leaving and restarting during a run are not
  modelled, and neither is `reset` as an event of the system.
- That every fair run settles: `CanAlwaysSettle` says that some order of events does, for all clocks. Which order
  happens is up to the network and to which node acts.
- Callbacks are taken to be installed; the branches for a missing callback are not modelled.
- `NodeIdentity::generate`: identities are given and different, and the bridge's use of it to name a learned
  route's node is a parameter, as are persona names.
- The forced release the bridge sends when it sees a data packet with a foreign source address, with
  `detectConflict`: it forwards another record type under that message type and rewrites the address index on
  purpose. Header and record layout of negotiation messages: handlers get their fields.
- That the local route stays in the table: after winning an announcement conflict the bridge still routes the
  address to the announcer, so it does not.
- Starting the bridge, its reaction to a successful negotiation (interface, own route, own node), and the heartbeat
  thread it stops; of `onUserLeft` only the tables and the two fields it clears are modelled.
- Interface delays and back-off of the flush timer: whether a flush is armed is modelled, when it fires is not.
- Read buffers, the set of clients reported missing, and the memory of recent connection failures: the last is
  an input of `HandleTunnelPacket`.
- `FlushOne`: takes the client off the order only after a successful send, where the source takes it off first and
  puts it back at the front after a failure; the containers agree at the end of the round in both.
- `broadcastPings` for members who are not the host, and the lobby chat that carries the message, which cuts text
  at a NUL.
- `QString::toLower` is an arbitrary function of strings; `std::stable_sort` is the sort function, which is proved
  to be the only stable one.
- The relay fallback, version comparison, lobby list, updates, sound, firewall and QML: easy or not about state.
