# A verified model of the UDP tunnel overlay

This project models the stateful cores of a hole-punching and relay overlay network and proves what they keep over
every run. Handlers and objects that the program updates in place are Dafny classes whose methods are proved against
specification functions; the theorems about whole runs are lemmas over those functions. Loops of the program are
loops here, with their invariants.

| module | what it models |
|---|---|
| `Replay`, `Session`, `Separation`, `Conversation` | the 64-entry replay window, the sealed frame codec shared by all transports, X25519 key agreement, what keeps keys and frames apart, and two devices end to end |
| `PendingQueue`, `Eviction`, `Stages`, `Flush`, `Rounds` | the client's bounded priority send queue, its eviction policy under one cap and under all caps, the flush over direct path, UDP relay and HTTP relay, and one flush after the other |
| `PeerPath`, `PeerEvents`, `PeerRuntime` | the path state machine of a peer (punching, relay mode, long punching, datagram path, KCP tunnels), what its fields say about the events of a run, and the objects that carry it out |
| `Rendezvous` | the server's slots, routes and cleanup |
| `Checksum`, `TcpMss`, `Ipv4Layout`, `Acl`, `Router` | IPv4 parsing and the layout it inverts, in-place MSS clamping, Internet checksums, group rule compilation and evaluation, outbound routing |
| `VirtualNet` | block overlap and selection, virtual address allocation |
| `RelayQueue` | the server's store-and-forward queues |
| `WindowsArgs` | command-line quoting for an elevated relaunch |
| `AgentRules`, `RuleSignature` | grouping of forwarding rules by peer, the text signature of a rule set, and reconciliation of running tunnels |
| `Basics`, `Bits` | bytes, big-endian numbers, string order, what has held since a moment, binary digits of 64-bit words |

Check everything with `dafny verify dfyconfig.toml`.

## Main results

- **Delivery.** The `(max, bits)` pair stands for the highest number ever presented and the set of numbers delivered,
  through every accept and every accept-then-rollback (`Replay.ReplayWindow`). Over any sequence of byte strings
  presented to one receive codec, a sealed frame is delivered exactly when its number is within 64 of the highest number
  presented before it and was not delivered before (`Session.SealedDelivery`); no number is delivered twice
  (`Replay.AtMostOnce`). From the key exchange of two devices to the last call of Open, with frames lost, repeated and
  overtaken, each arrival is delivered exactly when it is the first of its number and timely (`Conversation.Converse`).
- **Separation.** The device whose id comes first sends under the a-to-b key, the other under the b-to-a key
  (`Separation.CodecsExactly`). If HKDF tells labels apart, of all seals of two devices for each other two share key and
  nonce exactly when they go the same way and a multiple of 2^32 seals lies between them
  (`Separation.SealsShareNothing`); if it tells salts apart and ids are free of NUL, different pairs of devices share no
  key (`Separation.PairsHaveOwnKeys`). The bytes of a sealed frame authenticate under no other header, key, type or
  network (`Separation.OpensExactlyAsSealed`).
- **Online eviction is offline selection.** Whatever is added in whatever order, the send queue holds exactly the frames
  that fewer than N competitors of the whole history outrank, in arrival order; this holds for the frame cap, the
  per-peer cap and the per-session cap alike (`Eviction.OnlineIsOffline`, and on the object `Eviction.AddBatches`).
  With all caps on, an insertion keeps the best frames that fit the frame and byte caps, of these the best of the
  newcomer's peer, and of these the best of its session, in this order (`Stages.AddOneExactly`, `Stages.OrderMatters`);
  in a queue within its caps at most the worst of the peer and then the worst of the session leave
  (`Stages.OneOfEachLeaves`); over any run a frame that every cap has room for, counting all that ever outranked it, is
  never given up (`Stages.GoodEnoughIsKept`).
- **Flush.** One removal by position is right if and only if every frame still live has its position accepted exactly
  when its place among the live ones is (`Flush.PlacesDecide`), and right whatever was accepted if and only if the frames
  that expired are a suffix of the send order (`Flush.RemovalIsExact`). Then a flush leaves exactly the live frames that
  no transport accepted (`Flush.Run`), and over any sequence of flushes an accepted frame is never offered again
  (`Rounds.Flushes`).
- **Paths.** Over every run of peer steps, relay mode and long punching exclude each other, the datagram path rests on
  both punch signals and both codecs, and `relay_only` opens no tunnel, sends nothing directly and never leaves relay
  mode (`PeerPath.RunKeepsInv` and the lemmas after it). In terms of the events of the run: a signal is set exactly when
  a punch of its kind has come since the last reset, the codecs exist exactly when a good key has been announced, and
  the datagram path is ready exactly when a punch found both signals and the key since then
  (`PeerEvents.FieldsTellEvents`); the address is the last one given (`PeerEvents.AddressIsLastGiven`). The runtime
  object, which owns its peers and resets them all on rotation, carries out exactly these runs
  (`PeerRuntime.LanRuntime.Drive`); the methods of its peers are the steps written in place.
- **Routes.** In every reachable state of the server each route key is the address of a live slot; a registration keeps
  all routes leading to the partner if and only if it takes no route of another pair, for a step and all along a run
  (`Rendezvous.RunAgreesExactly`); whatever sockets are shared, a route leads to the other end of the last pairing made
  on its address (`Rendezvous.RouteIsLastPairing`), and it is there exactly if since that pairing no slot has moved away
  from the address, no slot on it has expired and it has not gone idle (`Rendezvous.RoutesAreKept`); the slots are the
  registrations not yet expired (`Rendezvous.SlotIsLastRegistration`); with a socket per live slot,
  partners' routes are mutual inverses (`Rendezvous.RoutesAreInverse`). The server object keeps all this
  (`Rendezvous.Server.Serve`).
- **Parsing** inverts the layout of the standards: a packet parses exactly when it is a datagram laid out as in section
  3.1 of RFC 791 followed by anything (`Ipv4Layout.ParsesExactly`), with the ports and the SYN flag of the TCP or UDP
  segment in it (`Ipv4Layout.ParseOfTcp`, `Ipv4Layout.ParseOfUdp`, `Ipv4Layout.ParseOfOther`), and the option walk finds
  exactly the MSS options of any option list (`Ipv4Layout.WalkFindsMss`).
- **Rewriting.** MSS clamping changes only option values and checksums, leaves both checksums verifying, keeps the parse
  and the option walk, and a second call changes nothing (`TcpMss.ClampTCPMSS`, `TcpMss.ClampTwice`).
- **Compilation of access rules** preserves their meaning (`Acl.ExpansionPreservesMeaning`).
- **Reconciliation.** The text signature of a rule set tells exactly whether its rules have changed, if no name holds '>'
  and no host holds ',' (`RuleSignature.TextTellsRules`); then a sync leaves running exactly what is wanted
  (`AgentRules.Agent.SyncRules`).
- **Quoting** is inverted by the documented splitting rules for every argument list (`WindowsArgs.SplitInvertsJoin`).

## Where the code falls short of what one might expect

- The nonce holds only the low 32 bits of the sequence number: two seals of one codec share a nonce exactly when a
  multiple of 2^32 seals lies between them (`Session.NonceReuse`, on the runs of `Session.SealAll`).
- Device ids are joined with NUL in the salt of the key derivation: with a NUL inside an id, different pairs of devices
  can have the same salt (`Separation.NulConfusesSalts`); `Separation.SaltTellsPair` shows that it takes one.
- The replay window is moved before a frame is authenticated and is not moved back: one frame with a forged number m
  makes exactly the numbers 64 or more below m replays, for ever (`Replay.ForgeryCost`).
- `Frames` and `Remove` each read the clock. A frame that expires in between shifts positions, and `Remove` can then
  discard a frame that no transport has seen (`Flush.ExpiryMisdirectsRemoval`); `Flush.PlacesDecide` is the exact
  condition for one call, `Flush.RemovalIsExact` for all.
- Frames are delivered at most once per seal, not per frame: one that is kept after a failed post is sealed again and
  delivered as often as its seals arrive in time (`Conversation.DeliveriesAreTimelySeals`,
  `Conversation.ResealedIsDeliveredTwice`).
- Under `relay_only` a punch that arrives before the order to use the relay keeps the peer out of relay mode for good;
  the first of these events decides (`PeerPath.FirstEventDecides`).
- Under `relay_only` a two-way punch is reported as a ready datagram path, which Send never takes
  (`PeerPath.RelayOnlyReportsDirect`); a reported datagram path is one Send can take exactly under the other policies
  (`PeerPath.ReportIsSound`).
- LAN clients register all peers from one socket. The second pairing then redirects the first slot's route
  (`Rendezvous.SharedSocketBreaksAgreement`); `Rendezvous.RegisterAgreesExactly` is the exact condition.
- Rule names and hosts are not checked, so different rule sets can have the same signature, and a changed tunnel then
  goes on with its old rules (`RuleSignature.NameCollision`, `RuleSignature.HostCollision`). Without '>' in names and
  ',' in hosts this cannot happen, and neither half of that condition can be dropped.
- A virtual network of prefix length 0 that is full gives away its own network address, and after that the allocator's
  loop does not end (`VirtualNet.Allocate`, `VirtualNet.FullSpaceNeverEnds`).

## Model

| member | source | states |
|---|---|---|
| `Replay.Advance` | internal/packet/session.go:162-171 | shifting the mask for a number above the highest represents exactly the old deliveries plus the new one, also when the shift empties the window |
| `Replay.Mark` | internal/packet/session.go:172-177 | the tested bit says whether the number was delivered, and setting it records exactly that delivery |
| `Replay.Clear` | internal/packet/session.go:180-191 | clearing the bit takes back exactly one delivery and leaves the highest number |
| `Replay.ReplayWindow.Accept` | internal/packet/session.go:153-178 | accepts exactly the fresh numbers (non-zero, in the window or above it, not delivered), and the mask goes on representing highest number and deliveries |
| `Replay.ReplayWindow.Rollback` | internal/packet/session.go:180-191 | forgets one delivery in the window and nothing else |
| `Replay.RunHighest` | internal/packet/session.go:108-178 | after any run the window's top is the largest number ever presented, authentic or not |
| `Replay.RunDelivered` | internal/packet/session.go:108-191 | the window's memory after k arrivals is the set of numbers those arrivals delivered |
| `Replay.VerdictExactly` | internal/packet/session.go:108-191 | the verdict on any arrival of any run: malformed is refused, a number that is 0, overtaken by 64 or delivered before is a replay, and of the others exactly the authentic ones are delivered |
| `Replay.DeliveryExactly` | internal/packet/session.go:108-191 | an authentic arrival is delivered if and only if its number is non-zero, within 64 of the highest presented before and not delivered before |
| `Replay.AtMostOnce` | internal/packet/session.go:108-191 | over any run no number is delivered twice |
| `Replay.HonestDelivery` | internal/packet/session.go:108-191 | if everything presented is authentic, in whatever order and however often, an arrival is delivered exactly when its number is not zero, it is the first of its number and nothing 64 or more above it came before |
| `Replay.ForgeryState` | internal/packet/session.go:122-131 | what one unauthentic frame changes of the window, at every later moment of any run |
| `Replay.ForgeryCost` | internal/packet/session.go:122-131 | one frame with a forged number m makes exactly the later numbers 64 or more below m replays, for the rest of the run, and changes no other authentic verdict |
| `Session.Codec.Seal` | internal/packet/session.go:94-106 | frame under the current number; the counter goes up by one modulo 2^64 |
| `Session.Codec.Open` | internal/packet/session.go:108-134 | outcome and memory of one call: malformed, replayed, unauthentic (counts as presented, not as delivered) or delivered |
| `Session.OpenAll` | internal/packet/session.go:108-134 | any run of calls on a new codec gives the outcomes of the run model |
| `Session.StateIsAfter` | internal/packet/session.go:108-134 | the codec's memory is that of the replay window fed with what the frames read as |
| `Session.SealedFrameIsWellFormed` | internal/packet/session.go:94-146 | a sealed frame passes every header check, carries its number and decrypts to its payload |
| `Session.SealedLayout` | internal/packet/session.go:94-146 | the bytes of a sealed frame: "UDPL", 1, type, two zeros, network and number with the high byte first, then the payload sealed with all of these as additional data |
| `Session.NonceLayout` | internal/packet/session.go:193-198 | the nonce is the network and then the low 32 bits of the number, high byte first |
| `Session.WellFormedExactly` | internal/packet/session.go:112-122 | a frame is looked at further exactly when it has at least 40 bytes and the magic, version, type and network of the codec; its number is the one in bytes 16 to 23 |
| `Basics.BigEndianDigits` | internal/packet/session.go:143-144 | the bytes written for a number are its digits to base 256, the highest first |
| `Session.OutcomeExactly` | internal/packet/session.go:108-134 | the outcome of every call of a run, whatever bytes are presented: bad if not well-formed, a replay if its number is not new, otherwise what decryption gives |
| `Session.SealedDelivery` | internal/packet/session.go:94-191 | among any other frames and in any order, a sealed payload opens to itself exactly when its number is in the window and new, and is otherwise refused as a replay |
| `Session.DeliveredWasSealed` | internal/packet/session.go:108-134 | if only sealed frames authenticate, everything delivered was sealed under that number |
| `Session.SentTwiceDeliveredOnce` | cmd/UDPTunnelLAN/packet_runtime.go:327-350 | a sealed frame that arrives twice is delivered by its first arrival at the latest and refused at the second |
| `Session.NonceDetermines` | internal/packet/session.go:193-198 | two nonces of one network are equal exactly when the numbers agree modulo 2^32 |
| `Session.SealNumberWraps` | internal/packet/session.go:94-106 | the counter of any run of seals is first + i modulo 2^64 |
| `Session.SealAll` | internal/packet/session.go:94-106 | any run of Seal gives payload i under the i-th number of that counter, and leaves the counter at the next |
| `Session.NonceReuse` | internal/packet/session.go:94-106 | seals i and j of such a run share a nonce exactly when j - i is a multiple of 2^32, so any 2^32 consecutive seals use distinct nonces |
| `Basics.LessIsTotal` | internal/packet/session.go:57-81 | of two distinct device ids exactly one comes first |
| `Session.MirroredCodecs` | cmd/UDPTunnelLAN/packet_runtime.go:2237-2264 | two distinct devices both derive codecs or both fail, and one side's sending key is the other's receiving key (which keys these are: `Separation.CodecsExactly`) |
| `Separation.LabelsDiffer` | internal/packet/session.go:72-79 | the two directions have different labels |
| `Separation.CodecsExactly` | cmd/UDPTunnelLAN/packet_runtime.go:2237-2264 | codecs exist exactly for a 32-byte key and a non-empty secret; the lesser id sends under the a-to-b key and receives under the b-to-a key, the other the other way round |
| `Separation.DirectionsDiffer` | internal/packet/session.go:72-79 | if HKDF tells labels apart, no device sends under the key it receives under |
| `Separation.SealsShareNothing` | cmd/UDPTunnelLAN/packet_runtime.go:2237-2264 | of all seals of two devices for each other, two share key and nonce exactly when they go the same way and a multiple of 2^32 seals lies between them |
| `Separation.SaltParts` | internal/packet/session.go:61-70 | the salt is network, session and the two ids in order, separated by NUL |
| `Separation.SaltTellsPair` | internal/packet/session.go:61-70 | with ids free of NUL, salts are equal exactly for the same network, session and unordered pair of devices |
| `Separation.NulConfusesSalts` | internal/packet/session.go:61-70 | two pairs of ids, one with a NUL inside, with the same salt |
| `Separation.PairsHaveOwnKeys` | internal/packet/session.go:57-81 | if HKDF tells salts apart and ids are free of NUL, different pairs of devices share no key, whatever secrets they agreed on |
| `Separation.OpensExactlyAsSealed` | internal/packet/session.go:108-134 | sealed bytes behind any header, read by any codec, authenticate exactly when the frame is unchanged and key, type and network are those of the seal |
| `Separation.ReflectedIsNotDelivered` | cmd/UDPTunnelLAN/packet_runtime.go:2237-2264 | a frame that comes back to its sender is not delivered there |
| `Separation.ForeignIsNotDelivered` | cmd/UDPTunnelLAN/packet_runtime.go:2237-2264 | nor by any other pair of devices |
| `Conversation.ArrivalDecides` | internal/packet/session.go:94-191 | for sealed frames arriving in any order, with losses and repetitions, each arrival is delivered as its payload exactly when its number is not zero, it is the first of its number and no number 64 or more above overtook it; every other is a replay, also after the counter has wrapped |
| `Conversation.BeforeWrapping` | internal/packet/session.go:94-106 | before the counter wraps: exactly the first arrival of each frame is delivered, unless a frame sealed 64 or more later overtook it |
| `Conversation.DeliveredExactlyOnce` | internal/packet/session.go:94-191 | if no frame is overtaken that far before it first arrives, every payload that arrives at all is delivered exactly once, as long as the counter has not wrapped |
| `Conversation.DeliveriesAreTimelySeals` | cmd/UDPTunnelLAN/packet_runtime.go:349-355 | what was sealed several times, because a transport failed, is delivered exactly as often as it has seals that arrive first of their number and in time |
| `Conversation.ResealedIsDeliveredTwice` | cmd/UDPTunnelLAN/packet_runtime.go:349-355 | a frame sealed again after a failed post is delivered twice if both seals arrive |
| `Conversation.Exchange` | internal/packet/session.go:83-134 | the same of two new codec objects, one sealing and one opening |
| `Conversation.Converse` | cmd/UDPTunnelLAN/packet_runtime.go:2237-2264 | from the key exchange on: both devices derive codecs or neither does, and then the receiver gets exactly what the order of arrivals says |
| `PendingQueue.PriorityTable` | cmd/UDPTunnelLAN/packet_runtime.go:487-531 | ICMP and TCP SYN come first, then frames of at most 256 bytes, TCP on ports 22, 53, 3389 and UDP on port 53, then the rest |
| `PendingQueue.SameSession` | cmd/UDPTunnelLAN/packet_runtime.go:640-657 | a frame has a session exactly if it is TCP or UDP with a device, both ports and both addresses; two frames share it exactly when network, device, protocol, addresses and ports agree |
| `PendingQueue.Worst` | cmd/UDPTunnelLAN/packet_runtime.go:805-822 | the item to give up: worst class among those selected, oldest within the class |
| `PendingQueue.CountIsCardinality` | cmd/UDPTunnelLAN/packet_runtime.go:745-763 | counting queue positions counts distinct frames |
| `PendingQueue.DropAtCounts` | cmd/UDPTunnelLAN/packet_runtime.go:765-775 | dropping a position lowers the byte sum by its size and every group count it belongs to by one |
| `PendingQueue.TrimGroup` | cmd/UDPTunnelLAN/packet_runtime.go:727-743 | trimming ends with the group within its cap |
| `PendingQueue.TrimTotal` | cmd/UDPTunnelLAN/packet_runtime.go:720-725 | trimming ends within the frame and byte caps |
| `PendingQueue.AddOneKeepsCaps` | cmd/UDPTunnelLAN/packet_runtime.go:432-459 | one insertion re-establishes the frame, byte, per-peer and per-session caps at once, for all peers and all sessions |
| `PendingQueue.LanPendingQueue.Survivors` | cmd/UDPTunnelLAN/packet_runtime.go:702-718 | the compaction loop yields the live frames in order, their byte sum and the number expired |
| `PendingQueue.LanPendingQueue.Prune` | cmd/UDPTunnelLAN/packet_runtime.go:702-718 | exactly the frames older than the lifetime leave, none when it is not positive, and are counted as expired; the invariant is kept |
| `PendingQueue.LanPendingQueue.DropFrameAt` | cmd/UDPTunnelLAN/packet_runtime.go:765-775 | one frame leaves and is counted as dropped; byte count, numbering and conservation are kept |
| `PendingQueue.LanPendingQueue.DropCandidateIndex` | cmd/UDPTunnelLAN/packet_runtime.go:777-791 | the oldest frame of the worst class |
| `PendingQueue.LanPendingQueue.DropMatchingCandidateIndex` | cmd/UDPTunnelLAN/packet_runtime.go:793-822 | the oldest frame of the worst class among those selected, 0 when none is |
| `PendingQueue.LanPendingQueue.CountMatching` | cmd/UDPTunnelLAN/packet_runtime.go:745-763 | the number of frames of a peer or a session |
| `PendingQueue.LanPendingQueue.Trim` | cmd/UDPTunnelLAN/packet_runtime.go:720-725 | terminates, by the byte invariant, with the specified survivors; only the dropped counter moves |
| `PendingQueue.LanPendingQueue.TrimMatching` | cmd/UDPTunnelLAN/packet_runtime.go:727-743 | terminates with the group at its cap and the specified survivors |
| `PendingQueue.LanPendingQueue.TrimToPeerCap` | cmd/UDPTunnelLAN/packet_runtime.go:727-734 | off for an unset cap or an unnamed peer, otherwise trims the peer's frames |
| `PendingQueue.LanPendingQueue.TrimToSessionCap` | cmd/UDPTunnelLAN/packet_runtime.go:736-743 | off for an unset cap or a frame without session, otherwise trims the session's frames |
| `PendingQueue.LanPendingQueue.AddFrame` | cmd/UDPTunnelLAN/packet_runtime.go:436-457 | the specified insertion (who leaves: `Stages.AddOneExactly`); byte sum, increasing ids, all caps and added = queued + dropped + expired + removed are kept |
| `PendingQueue.LanPendingQueue.Add` | cmd/UDPTunnelLAN/packet_runtime.go:432-459 | expiry and then the batch, one such insertion after the other, with the same invariant |
| `PendingQueue.LanPendingQueue.Ordering` | cmd/UDPTunnelLAN/packet_runtime.go:461-485 | the live frames in send order |
| `PendingQueue.LanPendingQueue.Remove` | cmd/UDPTunnelLAN/packet_runtime.go:659-682 | what is left after removal by position with two clock readings, and how much of the loss counts as removed |
| `PendingQueue.LanPendingQueue.DeleteByID` | cmd/UDPTunnelLAN/packet_runtime.go:659-682 | exactly the frames with the given ids leave, the others keep their order |
| `Eviction.JoinKeepsTop` | cmd/UDPTunnelLAN/packet_runtime.go:432-459 | with room left, adding the newcomer keeps the queue the best part of the history |
| `Eviction.ReplaceKeepsTop` | cmd/UDPTunnelLAN/packet_runtime.go:720-743 | with the group full, evicting its worst after adding the newcomer keeps the queue the best part of the history |
| `Eviction.InsertKeepsTop` | cmd/UDPTunnelLAN/packet_runtime.go:432-459 | one insertion extends the claim to a history longer by one frame |
| `Eviction.RankDecides` | cmd/UDPTunnelLAN/packet_runtime.go:777-822 | a frame is kept if and only if fewer than N frames of the history that compete with it outrank it |
| `Eviction.AddOneIsInsert` | cmd/UDPTunnelLAN/packet_runtime.go:432-459 | when one cap is the only limit, the insertion of the queue is the single-cap insertion |
| `Eviction.BatchExtendsRun` | cmd/UDPTunnelLAN/packet_runtime.go:432-459 | a batch is a run of single insertions |
| `Eviction.RunIsTop` | cmd/UDPTunnelLAN/packet_runtime.go:432-459 | after any run under one cap what is left is the best part of the history |
| `Eviction.RunUnderOneCap` | cmd/UDPTunnelLAN/packet_runtime.go:432-459 | when one cap is the only limit, any run of the queue is the run under that cap alone |
| `Eviction.OnlineIsOffline` | cmd/UDPTunnelLAN/packet_runtime.go:432-459 | after any run the queue holds, in arrival order, exactly the frames outranked by fewer than N competitors of the whole history, for each of the three caps |
| `Eviction.AddBatches` | cmd/UDPTunnelLAN/packet_runtime.go:432-459 | the same of the queue object after any sequence of calls of Add |
| `Stages.GroupExactly` | cmd/UDPTunnelLAN/packet_runtime.go:727-743 | a cap on a group keeps exactly the members that fewer than the cap outrank, and everything outside the group |
| `Stages.TotalExactly` | cmd/UDPTunnelLAN/packet_runtime.go:720-725 | the caps on frames and bytes keep exactly the frames that, with all that outranks them, exceed neither |
| `Stages.AddOneExactly` | cmd/UDPTunnelLAN/packet_runtime.go:432-459 | under all caps at once, what an insertion leaves: the best of queue and newcomer that fit, of these the best of its peer, of these the best of its session |
| `Stages.OneOfAllLeaves` | cmd/UDPTunnelLAN/packet_runtime.go:432-459 | without a byte cap the worst of all leaves first, exactly when there is one frame too many |
| `Stages.OneOfEachLeaves` | cmd/UDPTunnelLAN/packet_runtime.go:432-459 | in a queue within its caps, after that the worst of the newcomer's peer leaves exactly when the peer has one frame too many, and then the worst of its session exactly when the session has |
| `Stages.OrderMatters` | cmd/UDPTunnelLAN/packet_runtime.go:455-457 | a queue in which trimming the session before the peer would leave a different frame |
| `Stages.RunIsFromHistory` | cmd/UDPTunnelLAN/packet_runtime.go:432-459 | under all caps, after any run, the queue is in arrival order and holds frames of the history only |
| `Stages.GoodEnoughIsKept` | cmd/UDPTunnelLAN/packet_runtime.go:432-459 | under all caps, over any run, a frame that every cap has room for, counting all of the history that outranks it, stays from its arrival to the end |
| `Flush.SendOrderIsStableSort` | cmd/UDPTunnelLAN/packet_runtime.go:461-485 | the send order is a permutation of the queue, urgent classes first, arrival order within a class |
| `Flush.FilterOrder` | cmd/UDPTunnelLAN/packet_runtime.go:461-485 | expiry commutes with ordering |
| `Flush.LookupOfLive` | cmd/UDPTunnelLAN/packet_runtime.go:659-682 | `Remove` finds a live frame by its place among the live ones, where the flush meant it by its position |
| `Flush.PlacesDecide` | cmd/UDPTunnelLAN/packet_runtime.go:659-682 | one call of removal by position is right if and only if every frame still live has its position delivered exactly when its place among the live ones is |
| `Flush.LiveFirstKeepsPlaces` | cmd/UDPTunnelLAN/packet_runtime.go:461-485 | live frames keep their positions exactly when the expired frames are a suffix of the send order |
| `Flush.RemovalIsExact` | cmd/UDPTunnelLAN/packet_runtime.go:659-682 | removal by position is right whatever was delivered if and only if the expired frames are a suffix of the send order |
| `Flush.ExpiryMisdirectsRemoval` | cmd/UDPTunnelLAN/packet_runtime.go:659-682 | a concrete run in which expiry between the two clock readings discards a frame that was never sent |
| `Flush.SealRelayFrames` | cmd/UDPTunnelLAN/packet_runtime.go:1492-1508 | seals in order, skipping frames whose peer has no sending codec |
| `Flush.SealedAligned` | cmd/UDPTunnelLAN/packet_runtime.go:1492-1508 | when every peer has a sending codec nothing is skipped and each sealed frame is that of the same position |
| `Flush.OfferDirect` | cmd/UDPTunnelLAN/packet_runtime.go:282-298 | the positions accepted directly, and the relay candidates in order, each looked at with the codecs of its own moment |
| `Flush.AcceptedExactly` | cmd/UDPTunnelLAN/packet_runtime.go:282-361 | a position is accepted exactly when Send takes it, or its peer has both codecs, the relay is not backing off, and the UDP relay takes it at its place or the HTTP relay takes all |
| `Flush.SealCandidates` | cmd/UDPTunnelLAN/packet_runtime.go:310-322 | because a codec that exists stays, sealing skips no candidate and each sealed frame is that of the same position |
| `Flush.OfferUDP` | cmd/UDPTunnelLAN/packet_runtime.go:327-342 | the candidates the UDP relay took, and whether it took all |
| `Flush.OfferRelay` | cmd/UDPTunnelLAN/packet_runtime.go:302-361 | the candidates taken by the UDP relay or, if it missed any, by the HTTP relay; sealed frames aligned with candidates |
| `Flush.Dispatch` | cmd/UDPTunnelLAN/packet_runtime.go:271-361 | the accepted positions are exactly those some transport took |
| `Flush.RemovedRightly` | cmd/UDPTunnelLAN/packet_runtime.go:659-682 | where places agree, removal leaves exactly the frames not accepted and still live |
| `Flush.RightlyExactly` | cmd/UDPTunnelLAN/packet_runtime.go:659-682 | that is, a pending frame stays exactly when its position was not accepted and it has not expired at the last look at the clock |
| `Flush.Collect` | cmd/UDPTunnelLAN/packet_runtime.go:271-279 | the batch joins the queue with new numbers, and the pending frames are put in send order |
| `Flush.Run` | cmd/UDPTunnelLAN/packet_runtime.go:271-361 | whatever expires meanwhile, the queue afterwards is what removal by the accepted positions leaves; where places agree for them (if nothing expires, in particular), it is exactly the frames that no transport took and that are live, in arrival order; sealed frames stay aligned |
| `Rounds.SealedOncePerFlush` | cmd/UDPTunnelLAN/packet_runtime.go:310-322 | a flush seals a frame for the relay at most once |
| `Rounds.OneFlush` | cmd/UDPTunnelLAN/packet_runtime.go:271-361 | what is gone is neither offered in the next flush nor queued after it, and what a flush accepted and rightly removed is gone |
| `Rounds.Flushes` | cmd/UDPTunnelLAN/packet_runtime.go:271-361 | over any sequence of flushes, a frame that was accepted and rightly removed is offered to no transport again, so only frames that no transport accepted are sealed twice |
| `PeerPath.RunKeepsInv` | cmd/UDPTunnelLAN/packet_runtime.go:1393-1457 | the invariant holds in every reachable state |
| `PeerPath.PathsAreSound` | cmd/UDPTunnelLAN/packet_runtime.go:1414-1446 | relay mode and long punching never coexist; datagram-ready means both signals (since when: `PeerEvents.FieldsTellEvents`), both codecs and an address; connected means a tunnel exists or is being opened |
| `PeerPath.RelayOnlyOpensNothing` | cmd/UDPTunnelLAN/packet_runtime.go:1448-1457 | under `relay_only` no run opens a KCP tunnel or asks for a socket rotation |
| `PeerPath.RelayOnlyIsSticky` | cmd/UDPTunnelLAN/packet_runtime.go:1902-1926 | under `relay_only` a peer in relay mode stays in it, addressed to the server, however the run goes on |
| `PeerPath.FirstEventDecides` | cmd/UDPTunnelLAN/packet_runtime.go:1902-1926 | under `relay_only` with the relay available, over every run: a known peer is in relay mode exactly when the first punch or relay order that concerned it was the relay order |
| `PeerPath.PunchFirstMissesRelay` | cmd/UDPTunnelLAN/packet_runtime.go:1902-1926 | both orders occur, with opposite outcomes |
| `PeerPath.SendIsSound` | cmd/UDPTunnelLAN/packet_runtime.go:1031-1072 | in every run, each way out exactly when it is taken: fast path, datagram to the known address after a two-way punch, KCP for what neither takes; nothing under `relay_only`, and under `prefer_relay` only with a ready datagram path |
| `PeerPath.ReportIsSound` | cmd/UDPTunnelLAN/packet_runtime.go:1523-1556 | in every run: the relay path is reported exactly in relay mode, the datagram path exactly when it is ready outside relay mode, KCP exactly when only it is connected; a datagram path only after a two-way punch, and Send can take it exactly when the policy is not `relay_only` |
| `PeerPath.ReasonIsExact` | cmd/UDPTunnelLAN/packet_runtime.go:1523-1556 | in every run each reason exactly in its case, and `relay_disabled` never |
| `PeerPath.RelayOnlyReportsDirect` | cmd/UDPTunnelLAN/packet_runtime.go:1523-1556 | under `relay_only` a run ends with a ready datagram path reported that Send never takes |
| `PeerPath.StepKeepsInv` | cmd/UDPTunnelLAN/packet_runtime.go:2089-2128 | every step of the runtime, socket rotation over all peers included, keeps the invariant |
| `PeerPath.OnPeerKeepsInv` | cmd/UDPTunnelLAN/packet_runtime.go:2715-2808 | every step on a peer keeps the peer invariant and, under `relay_only`, relay mode |
| `PeerPath.ReadyIsUsable` | cmd/UDPTunnelLAN/packet_runtime.go:1393-1412 | in reachable states a ready datagram path is usable unless the peer is in relay mode under `relay_only`: the checks of codecs and address never decide |
| `PeerPath.SignalKeeps` | cmd/UDPTunnelLAN/packet_runtime.go:1414-1446 | a punch signal adds its own kind and no other; the datagram path is then ready exactly when both signals and both codecs are there; nothing else changes |
| `PeerPath.OpenUnlessKeeps` | cmd/UDPTunnelLAN/packet_runtime.go:1448-1457 | an opening is spawned exactly when direct paths are allowed and the datagram path is not ready |
| `PeerPath.PeerInfoKeeps` | cmd/UDPTunnelLAN/packet_runtime.go:2721-2759 | an announcement teaches key and address and neither punches nor readies nor changes the mode |
| `PeerPath.PunchedKeeps` | cmd/UDPTunnelLAN/packet_runtime.go:2760-2807 | a punch or acknowledgement leaves the peer punched, and takes it out of relay mode only onto a ready datagram path and never under `relay_only` |
| `PeerPath.RelayModeKeeps` | cmd/UDPTunnelLAN/packet_runtime.go:1885-1926 | relay mode is entered exactly by peers that have not been punched; without a relay the peer is punched for longer |
| `PeerPath.SessionIntentKeeps` | cmd/UDPTunnelLAN/packet_runtime.go:1074-1137 | a SYN towards the peer never changes the mode or a working path; otherwise punching starts anew |
| `PeerPath.PreheatKeeps` | cmd/UDPTunnelLAN/packet_runtime.go:1231-1271 | a learned path never replaces a ready one, nor anything under `relay_only` |
| `PeerPath.OpenBeginKeeps` | cmd/UDPTunnelLAN/packet_runtime.go:2334-2391 | the tunnel library is called only where direct paths are allowed and the datagram path is not ready, and no second opening can then start |
| `PeerPath.OpenReadyKeeps` | cmd/UDPTunnelLAN/packet_runtime.go:2334-2391 | a handshake that succeeds puts its connection in use and changes nothing else of the path |
| `PeerPath.OpenFailedKeeps` | cmd/UDPTunnelLAN/packet_runtime.go:2143-2175 | a failed opening leaves the peer unconnected: back at the server in relay mode, else with everything to be punched anew |
| `PeerPath.KcpReadFailedKeeps` | cmd/UDPTunnelLAN/packet_runtime.go:2527-2549 | losing the connection in use resets the path; losing any other changes nothing |
| `PeerPath.RetryFiresKeeps` | cmd/UDPTunnelLAN/packet_runtime.go:1942-1979 | a retry spawns an opening exactly when the peer is punched, unconnected and has no ready datagram path |
| `PeerPath.ResetKeeps` | cmd/UDPTunnelLAN/packet_runtime.go:2089-2128 | a rotation leaves of a peer only its codecs and what has been spawned |
| `PeerEvents.EventByField` | cmd/UDPTunnelLAN/packet_runtime.go:1393-1457 | in reachable states every event has, on every field of a peer, exactly the effect that the table of that field says |
| `PeerEvents.CountersByEvent` | cmd/UDPTunnelLAN/packet_runtime.go:2143-2219 | which events ask for a rotation, carry one out, or call tunnel.Open |
| `PeerEvents.PeersAreKnown` | cmd/UDPTunnelLAN/packet_runtime.go:990-1028 | exactly the peers that were introduced are known |
| `PeerEvents.FieldsTellEvents` | cmd/UDPTunnelLAN/packet_runtime.go:1414-1446 | over every run: a signal is set exactly when a punch of its kind with the datagram marker has come since the last rotation, lost connection or failed opening outside relay mode; codecs exist exactly when a good key was announced; the datagram path is ready exactly when since then a punch came at which both kinds had come and the key was known |
| `PeerEvents.DatagramNeedsBothPunches` | cmd/UDPTunnelLAN/packet_runtime.go:1031-1072 | a payload leaves as a datagram only after both kinds of punch have come since the last reset, and after a key |
| `PeerEvents.AddressIsLastGiven` | cmd/UDPTunnelLAN/packet_runtime.go:2715-2808 | over every run the peer's address is the last one it was given since the last rotation |
| `PeerRuntime.LanRuntime.ResetAllPeers` | cmd/UDPTunnelLAN/packet_runtime.go:2089-2128 | the loop over distinct peer objects resets every one of them |
| `PeerRuntime.LanRuntime.Handle` | cmd/UDPTunnelLAN/packet_runtime.go:2715-2808 | any event on the runtime object keeps the invariant of all peers, changes no other peer (rotation apart), and keeps objects with their ids |
| `PeerRuntime.LanRuntime.Drive` | cmd/UDPTunnelLAN/packet_runtime.go:2177-2219 | any sequence of events on a new runtime object is a run of the model and ends with the invariant; under `relay_only` with no tunnel opened |
| `Rendezvous.RunKeepsKeysLive` | internal/server/udp.go:146-425 | in every reachable state, whatever sockets are used, each route key is the address of a live slot |
| `Rendezvous.RegisterSlots` | internal/server/udp.go:218-229 | a registration fills its slot with the socket and the time, and changes socket and time of no other |
| `Rendezvous.RegisterRoutes` | internal/server/udp.go:224-243 | an address has a route afterwards exactly when it is one of the two of a completed pair, or had one and the slot does not move away from it; the pair's two routes lead to each other under one session, every other route is unchanged |
| `Rendezvous.RegisterSessions` | internal/server/udp.go:364-376 | which session slots and pairs have afterwards: the one they had, or the one just started |
| `Rendezvous.RelayEffect` | internal/server/udp.go:146-174 | relaying changes nothing but when the route was last used |
| `Rendezvous.CleanupEffect` | internal/server/udp.go:378-425 | exactly the expired slots, the routes of their addresses and the idle routes go; everything else is unchanged |
| `Rendezvous.SameSession` | internal/server/util.go:114-119 | two slots share a session key exactly when they are of the same two devices, in either role, and the same profile |
| `Rendezvous.SlotIsLastRegistration` | internal/server/udp.go:209-425 | in every run the live slots are the registrations neither repeated nor expired since, with their socket and time |
| `Rendezvous.RoutesAreKept` | internal/server/udp.go:146-425 | in every run, whatever sockets are shared, an address has a route exactly when a pairing was made on it and since then no slot has moved away from it, no slot on it has expired and it has not gone idle; the route is as old as its last pairing or relayed packet |
| `Rendezvous.RegisterAgreesExactly` | internal/server/udp.go:297-362 | a registration keeps every route leading to the partner's current address if and only if it takes no route of another live pair |
| `Rendezvous.RelayAgrees` | internal/server/udp.go:146-174 | relaying keeps every route leading to the partner |
| `Rendezvous.CleanupAgrees` | internal/server/udp.go:378-425 | cleanup keeps every surviving route leading to the partner |
| `Rendezvous.RunAgreesExactly` | internal/server/udp.go:146-425 | all along a run every route leads to the partner if and only if no registration of the run takes a route of another pair |
| `Rendezvous.RouteIsLastPairing` | internal/server/udp.go:209-245 | in every run, whatever sockets are shared, the route of an address leads to the other end of the last pairing made on it |
| `Rendezvous.SharedSocketBreaksAgreement` | internal/server/udp.go:297-353 | a device paired twice through one socket loses its first route to the second partner |
| `Rendezvous.SharedSocketIsReachable` | internal/server/udp.go:297-353 | three registrations lead to such a state |
| `Rendezvous.StepKeepsInv` | internal/server/udp.go:146-425 | with a socket per live slot every step keeps addresses distinct, routes agreeing and sessions shared |
| `Rendezvous.RunKeepsInv` | internal/server/udp.go:146-425 | so does every run |
| `Rendezvous.RoutesAreInverse` | internal/server/udp.go:209-245 | partners' surviving routes are mutual inverses and carry one session |
| `Rendezvous.SessionIsPermanent` | internal/server/udp.go:364-376 | over every run, once two devices have a session for a profile, they keep it |
| `Rendezvous.RelayReachesPartner` | internal/server/udp.go:146-174 | while routes agree, the route of a live slot leads to the current socket of its live partner |
| `Rendezvous.Server.EnsurePairSession` | internal/server/udp.go:364-376 | no session is ever replaced; the answer is the stored one, or 0 when the store fails |
| `Rendezvous.Server.HandleRegister` | internal/server/udp.go:209-245 | every route stays but that of the address the slot leaves and those of the pair it completes; route keys stay live; routes go on leading to partners exactly when no route of another pair is taken; with a socket of the slot's own, the whole invariant is kept |
| `Rendezvous.Server.HandleRelay` | internal/server/udp.go:146-174 | a packet goes where the route of its socket leads, which is there only for the socket of a live slot, and while routes agree it goes to the partner of every live slot on that socket; the invariant is kept |
| `Rendezvous.Server.CleanupExpiredPeers` | internal/server/udp.go:401-425 | exactly the expired slots go, with the routes of their addresses |
| `Rendezvous.Server.CleanupOnce` | internal/server/udp.go:378-399 | the cleanup step on the object keeps route keys live, routes agreeing and the invariant |
| `Rendezvous.Server.Serve` | internal/server/udp.go:51-105 | any sequence of calls on a new server ends with every route key live, and with a socket per live slot in the invariant |
| `Checksum.FoldIsModular` | internal/packet/router.go:423-436 | folding carries computes the sum modulo 65535, with 65535 instead of 0 for a positive sum |
| `Checksum.WordSumBound` | internal/packet/router.go:423-436 | the sum of up to 65535 bytes fits the 32-bit accumulator |
| `Checksum.WordSumStore` | internal/packet/router.go:403-421 | writing a word over a cleared field adds it to the sum |
| `Checksum.StoredChecksumVerifies` | internal/packet/router.go:403-436 | storing the checksum of data with a cleared field makes the whole verify to zero |
| `Checksum.SumWords` | internal/packet/router.go:423-431 | the accumulator loop, with 32-bit wrap-around written out, computes the true sum |
| `Checksum.FoldCarries` | internal/packet/router.go:432-435 | the folding loop |
| `Checksum.ComputeChecksum` | internal/packet/router.go:423-436 | the Internet checksum of section 1 of RFC 1071 |
| `Ipv4Layout.ParseOfLayout` | internal/packet/router.go:322-356 | parsing a datagram laid out as in section 3.1 of RFC 791, followed by anything, gives its header length, total length, protocol, source and destination |
| `Ipv4Layout.ParsesExactly` | internal/packet/router.go:322-341 | a packet parses exactly when it is such a layout followed by anything, and is invalid otherwise |
| `Ipv4Layout.ParseOfTcp` | internal/packet/router.go:342-350 | a TCP segment laid out as in section 3.1 of RFC 9293 gives its ports and its SYN flag |
| `Ipv4Layout.ParseOfUdp` | internal/packet/router.go:351-354 | a UDP segment laid out as in RFC 768 gives its ports |
| `Ipv4Layout.ParseOfOther` | internal/packet/router.go:342-355 | any other protocol, and a segment that is none of its protocol, gives no ports and no SYN flag |
| `Ipv4Layout.TcpExactly` | internal/packet/router.go:342-347 | the TCP ports are read exactly when the bytes are such a segment |
| `Ipv4Layout.CoveredOfLayout` | internal/packet/router.go:408-419 | what the TCP checksum covers: source, destination, zero, protocol, length and the segment |
| `Ipv4Layout.AnyBytesAreOptions` | internal/packet/router.go:369-395 | any bytes are a list of options, up to an end-of-list byte or a broken option, at which the walk stops |
| `Ipv4Layout.WalkFindsMss` | internal/packet/router.go:358-395 | over any such list the walk finds exactly its MSS options, at their places and with their values |
| `TcpMss.WalkIgnoresValues` | internal/packet/router.go:369-395 | changing values of reached MSS options does not change which options the walk reaches |
| `TcpMss.ClampAt` | internal/packet/router.go:369-395 | one round of the walk: where it goes next, and whether and what it writes |
| `TcpMss.ClampOptions` | internal/packet/router.go:358-395 | the walk terminates on all bytes, limits every reached MSS option without 16-bit wrap and changes nothing else |
| `TcpMss.PaddingIsNeutral` | internal/packet/router.go:417-419 | padding an odd segment with a zero byte does not change its sum |
| `TcpMss.RecomputeHeaderChecksum` | internal/packet/router.go:403-406 | only the header checksum changes, and the header then verifies to zero |
| `TcpMss.PseudoPacket` | internal/packet/router.go:409-419 | the bytes summed have the sum of pseudo-header and segment, odd or even |
| `TcpMss.RecomputeTcpChecksum` | internal/packet/router.go:408-421 | only the TCP checksum changes, and pseudo-header plus segment then verify to zero |
| `TcpMss.ClampSyn` | internal/packet/router.go:358-401 | as below, for the part after the first guard |
| `TcpMss.ClampTCPMSS` | internal/packet/router.go:358-401 | changes the packet exactly when it is a TCP SYN with a reached MSS option over the limit; then only option values and checksums differ, each option is the minimum of itself and the limit, and both checksums verify |
| `TcpMss.ClampKeepsParse` | internal/packet/router.go:322-401 | the parse result is unchanged |
| `TcpMss.ClampKeepsWalk` | internal/packet/router.go:358-401 | the walk reaches the same options afterwards |
| `TcpMss.ClampIsIdempotent` | internal/packet/router.go:358-401 | nothing is over the limit afterwards |
| `TcpMss.ClampTwice` | internal/packet/router.go:358-401 | a second call changes nothing: the bytes are those left by the first call, which are the original or its clamped form, with the parse of the original |
| `Acl.TrafficExactly` | internal/packet/router.go:291-320 | no bounds match every port, one bound just that port, two the range between them; the protocol is any or the packet's own |
| `Acl.RuleExactly` | internal/packet/router.go:274-304 | every field that is set has to be met, devices by the two devices and groups by the network's own number |
| `Acl.AllowACL` | internal/packet/router.go:243-257 | allowed if and only if no enabled rule of the network that matches denies |
| `Acl.GroupMembers` | internal/server/handlers_lan.go:1132-1140 | the index holds exactly the listed memberships |
| `Acl.AclDevices` | internal/server/handlers_lan.go:1163-1175 | the devices a field stands for: the device, the group's members, or all known devices in any order |
| `Acl.ExpandRule` | internal/server/handlers_lan.go:1149-1158 | exactly the pairs of a source and a destination |
| `Acl.ExpandRules` | internal/server/handlers_lan.go:1132-1161 | exactly the expansions of all rules |
| `Acl.ExpansionDenies` | internal/server/handlers_lan.go:1132-1175 | what the group rules deny between devices of the network, the expansion denies |
| `Acl.ExpansionDeniesNoMore` | internal/server/handlers_lan.go:1132-1175 | the expansion denies nothing else |
| `Acl.ExpansionPreservesMeaning` | internal/server/handlers_lan.go:1132-1175 | for two devices of the network the router's verdict on any expansion, in any order, equals deny-overrides evaluation of the rules as written |
| `Router.MSSForMTU` | internal/vnet/network.go:66-78 | 40 less than the MTU between 576 and 1240, 536 below, 1200 above or when unset |
| `Router.ParseOfTrimmed` | internal/packet/router.go:173-176 | bytes past the total length do not influence parsing |
| `Router.Prepare` | internal/packet/router.go:173-181 | the payload for a packet that passed the checks is its trimmed form, clamped where needed, with the same parse |
| `Router.OutboundRouter.Inspect` | internal/packet/router.go:129-172 | the verdict names a reason that applies and before which none applies, or passes when none applies; the route is that of the address in bytes 16 to 19, access is decided by deny-overrides for the protocol in byte 9 and the destination port |
| `Router.OutboundRouter.VerdictIsUnique` | internal/packet/router.go:129-172 | that determines the verdict |
| `Router.OutboundRouter.RouteOutbound` | internal/packet/router.go:129-187 | dropped for the first reason that applies, counted once; otherwise it goes to the device that bytes 16 to 19 are routed to, and the payload is the packet cut to its total length, clamped if it is a TCP SYN over the limit, and parses to the original header |
| `Router.ClampCopy` | internal/packet/router.go:174-177 | the copy is the packet or its clamped form, within the limit, with the same parse |
| `VirtualNet.MaskIsRange` | internal/vnet/network.go:80-100 | the mask test is the range test, and the bitwise last address ends the range |
| `VirtualNet.OverlapExactly` | internal/vnet/network.go:80-82 | the overlap test is true exactly when the two blocks share an address |
| `VirtualNet.DetectConflict` | internal/vnet/network.go:26-47 | the first parseable non-default route that shares an address, none exactly when the block is free |
| `VirtualNet.NextAvailableCIDR` | internal/vnet/network.go:49-64 | the first candidate free of every counting route; failure on a valid preferred block only when every candidate is taken |
| `VirtualNet.FallbackIsValid` | internal/vnet/network.go:49-64 | the fallback candidates are well-formed blocks |
| `VirtualNet.CandidatesInOrder` | internal/vnet/network.go:49-64 | after the preferred block come 172.16.10.0/24 to 172.16.254.0/24, in order |
| `VirtualNet.BumpedValue` | internal/server/handlers_lan.go:950-959 | byte increment with carry adds one modulo the range of the bytes, for any length |
| `VirtualNet.NextIPv4` | internal/server/handlers_lan.go:950-959 | the loop yields the next 32-bit number, 0 after the last |
| `Basics.NextWraps` | internal/server/handlers_lan.go:950-959 | which is plus one modulo 2^32 |
| `VirtualNet.BlockEnds` | internal/server/handlers_lan.go:961-973 | where a block ends: inside the address space, or at its end only for prefix length 0 |
| `VirtualNet.FullSpaceNeverEnds` | internal/server/handlers_lan.go:924-926 | with prefix length 0 and every address but the last in use, every address passes the loop's guard and is skipped: the loop ends exactly otherwise |
| `VirtualNet.Allocate` | internal/server/handlers_lan.go:903-948 | ends, whenever the loop can, with the lowest unused address other than network and broadcast, or none exactly when there is none; only a full prefix-length-0 network gives away the network address |
| `VirtualNet.AddressBook.AllocateVirtualAddress` | internal/server/handlers_lan.go:903-948 | the same on the stored addresses, which stay pairwise distinct, inside the block and off the broadcast address |
| `RelayQueue.EnqueueKeepsFifo` | internal/server/lan_packet_relay.go:43-53 | on overflow exactly the oldest waiting frame leaves, and the subsequence claim is kept |
| `RelayQueue.FifoWithLoss` | internal/server/lan_packet_relay.go:43-75 | for each device and every run: the queue respects the limit, and polled followed by queued is a subsequence of enqueued |
| `RelayQueue.Conservation` | internal/server/lan_packet_relay.go:43-75 | over all devices and every run, enqueued = polled + waiting + dropped |
| `RelayQueue.LosslessWithoutDrops` | internal/server/lan_packet_relay.go:43-75 | with nothing dropped, each device sees exactly what was sent to it, in order |
| `RelayQueue.RunIsSound` | internal/server/lan_packet_relay.go:43-75 | limit, subsequence and conservation together, for all devices |
| `RelayQueue.LanPacketRelay.EnqueueFrame` | internal/server/lan_packet_relay.go:43-53 | only the frame's own queue changes, and loses its oldest frame exactly when it was full; limit, first-in-first-out with loss and conservation hold of all calls so far |
| `RelayQueue.LanPacketRelay.PollDevice` | internal/server/lan_packet_relay.go:55-75 | batch followed by rest is the old queue, at most 64 and at least one frame if there is any; other queues stay; the same holds of all calls so far |
| `WindowsArgs.QuoteWindowsArg` | cmd/client/elevate_windows.go:73-104 | the scan with a running backslash count builds the specified quoting |
| `WindowsArgs.QuotedExactly` | cmd/client/elevate_windows.go:73-79 | an argument is written as it is exactly when it is not empty and has no blank, line feed, vertical tab or quote |
| `WindowsArgs.JoinWindowsArgs` | cmd/client/elevate_windows.go:65-71 | splitting the command line gives the arguments back |
| `WindowsArgs.ScanPlain` | cmd/client/elevate_windows.go:77-79 | an argument without special characters is read back as itself |
| `WindowsArgs.ScanEscaped` | cmd/client/elevate_windows.go:80-104 | what is written between quotes is read back, whatever run of backslashes comes before a quote or the end |
| `WindowsArgs.ScanQuote` | cmd/client/elevate_windows.go:73-104 | any quoted argument is read back as itself, whatever follows |
| `WindowsArgs.SplitInvertsJoin` | cmd/client/elevate_windows.go:65-104 | the documented splitting rules invert joining for every argument list, empty arguments included |
| `AgentRules.SameProfile` | cmd/client/main.go:1172 | two profiles are taken for the same exactly when they are, or both are empty or "interactive" |
| `AgentRules.TunnelExactly` | cmd/client/main.go:1166-1196 | a tunnel is kept exactly for the enabled rules of its profile that lead to its peer or come from it |
| `AgentRules.SetForExactly` | cmd/client/main.go:1174-1186 | of one rule after others the set gets its own entry exactly if the rule leads to the peer |
| `AgentRules.RowsExactly` | internal/controlstore/store.go:268-276 | a device pulls exactly the enabled rows with it on one of the ends, in table order |
| `AgentRules.GroupOne` | cmd/client/main.go:1166-1196 | one more rule turns the grouping of a table into that of the longer table |
| `AgentRules.GroupRule` | cmd/client/main.go:1168-1194 | the loop body does that |
| `AgentRules.GroupRulesByPeer` | cmd/client/main.go:1166-1196 | a key is present exactly when an enabled rule involves device, peer and profile; its set lists the forwarded rules in table order |
| `AgentRules.OwnRowsSuffice` | internal/controlstore/store.go:268-276 | the rows a device pulls determine the same tunnels and rule sets as the whole table |
| `AgentRules.TunnelsAreMutual` | cmd/client/main.go:1166-1200 | for distinct devices over one table A has tunnel (B, profile) exactly when B has (A, profile), and exactly one is the listener |
| `RuleSignature.DecimalInjective` | cmd/client/main.go:1202-1213 | decimal texts of different numbers differ |
| `RuleSignature.PartIsReadable` | cmd/client/main.go:1202-1213 | with no '>' in names and no ',' in hosts, a part and what follows it can be read off a signature |
| `RuleSignature.JoinIsReadable` | cmd/client/main.go:1202-1213 | a joined text determines its items wherever single items are readable |
| `RuleSignature.SortedIsUnique` | cmd/client/main.go:1211-1212 | sorting makes the text independent of the order of rules |
| `RuleSignature.SameRulesSameText` | cmd/client/main.go:1202-1213 | unchanged rules in any order have an unchanged signature, whatever their names |
| `RuleSignature.TextTellsRules` | cmd/client/main.go:1202-1213 | with no '>' in names and no ',' in hosts, two signatures are equal if and only if the rules are the same |
| `RuleSignature.NameCollision` | cmd/client/main.go:1202-1213 | with '>' in a name, two rules and a single different one have the same signature |
| `RuleSignature.HostCollision` | cmd/client/main.go:1202-1213 | with ',' in a host, they do too |
| `AgentRules.ForwardRulesSignature` | cmd/client/main.go:1202-1213 | the loops build the signature |
| `AgentRules.SignatureTellsRules` | cmd/client/main.go:1202-1213 | the same of rule sets of one tunnel |
| `AgentRules.Agent.Sign` | cmd/client/main.go:1202-1213 | the agent signs with the signature of the source |
| `AgentRules.Agent.StopChanged` | cmd/client/main.go:692-710 | exactly the sessions whose tunnel is wanted with an equal signature go on |
| `AgentRules.Agent.StartMissing` | cmd/client/main.go:711-729 | every missing tunnel is started with the signature of its rules, and no running one is touched |
| `AgentRules.Agent.Reconcile` | cmd/client/main.go:692-729 | both loops: the sessions are the wanted tunnels, and one goes on exactly when its signature is unchanged |
| `AgentRules.Agent.SyncRules` | cmd/client/main.go:676-729 | afterwards the sessions are exactly the grouped keys with matching signatures; where names and hosts are plain, a session survives if and only if its rules are the same, and what runs is what is wanted |

## Left out

- Concurrency inside a handler: each handler, timer and goroutine segment is one atomic step. The codec has no lock of its own, and the server's relay loads and stores a route in two operations that cleanup can interleave; the model takes them as one.
- Cryptography: ChaCha20-Poly1305, X25519 and HKDF are parameters with the laws of `Aead.Lawful` and `KeyExchange.Lawful`; unforgeability appears as the hypothesis `OnlySealedAuthenticate`, and freedom from collisions as `TellsLabels`, `TellsSalts` and, for one sealed frame, `Binds`, where a statement needs it.
- The queue's counters per protocol and traffic class and its log lines. `maxFrames` is a natural number; a negative value would make the source's trim loop run forever.
- Session keys of the queue, slot keys and pair keys are tuples, not strings joined with NUL bytes; identifiers are taken as free of NUL and already trimmed (the salt of the key derivation is modelled with its NULs).
- Flush: outcomes of transports, the relay backoff and clock readings are inputs, and clock readings never go back. Sealing with an existing codec cannot fail in the source, so its error branch is not modelled.
- PendingQueue: the slice whose backing array the source compacts in place is a sequence that the methods reassign, so nothing is said of reads and writes sharing that array.
- PeerPath: the throughput tunnel, hot-path learning, UPnP, timers' delays, failure counters and `relaySince` are not part of the model, and adapter, router and link are taken as present.
- Liveness of punching: nothing is claimed about the punch loop running when `punching` is set.
- Rendezvous: nested slot maps are one map, a handler reads the clock once, signature and timestamp checks, database calls and messages to the peers are outside, and registration of agents and of LAN devices is one method over a tagged slot. `handleLANUDPRelay` is not modelled.
- Rule actions, protocols and profiles are parsed values; the text forms, case folding and trimming are outside.
- VirtualNet: IPv6 routes and the text of CIDRs are outside; a route that does not parse is None.
- VirtualNet.Allocate: requires that the source's loop ends, which `VirtualNet.FullSpaceNeverEnds` shows to be all it can require. Hostnames and failing writes to the store are outside.
- WindowsArgs: invalid UTF-8 and the separate splitting rule for the program name are outside; the same code in the LAN client is modelled once.
- AgentRules: stopping and starting of workers is outside; texts are sequences of characters, whose order is that of their bytes in UTF-8.
- The control store, HTTP handlers, JWT and Ed25519, settings and the admin interface, tray, service, updater, NAT probing and the tunnel libraries: thin wrappers or code that is not visible.
