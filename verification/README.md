# Verification of the networking core

A Dafny 4.11 model of the byte-level and stateful parts of the game's networking layer and of a few
small state machines around it, with proofs of what they promise. `dafny verify dfyconfig.toml`
checks everything.

Each component is one module. Code that changes things step by step is a class or a method with
loops, proved against a specification function on values; the theorems are then about those functions
and cover every input, every run or every interleaving.

| file | what it models |
|---|---|
| `bytes.dfy`, `wrappers.dfy` | little-endian integers and byte strings; optional values |
| `message_stream.dfy` | `MessageStream`: length-prefixed framing, the receive buffer, compaction |
| `snapshot_delta.dfy` | `encodeDelta` and `applyDelta`: the run-length byte diff between snapshots |
| `registry_packet.dfy` | the archives, the parallel serialisation, the snapshot packet and `Loader::apply` |
| `outbound_queue.dfy` | `OutboundQueue`: replace-by-key, age culling, two threads |
| `fragments.dfy`, `directory_server.dfy` | the global directory: fragment reassembly, registration, relay sessions, pruning |
| `udp_endpoint.dfy` | the sender of fragmented datagrams, end to end with the directory |
| `utf8.dfy`, `chat_protocol.dfy`, `server_name.dfy` | UTF-8 validation, chat sanitising and packets, server names |
| `windows_args.dfy` | quoting of a hosted server's Windows command line |
| `input_bindings.dfy` | the binding tables and their form in the settings file |
| `hud_clip_spans.dfy` | clip spans of the HUD's immediate-mode context |
| `shot_ring.dfy` | the shot debugger's ring of paired reports |

Where the code and its comments disagree, the code is modelled:

* `encodeDelta` is documented as possibly empty for identical buffers and as at most a few dozen bytes
  longer than the buffer; identical buffers cost one 8-byte triple (`SnapshotDelta.IdenticalBuffersPatch`), and an
  alternating change costs 4.5 bytes a byte (`SnapshotDelta.SizeBoundReached`).
* `OutboundQueue` is documented as removing a message and pushing its replacement; the replacement
  takes the old position (`OutboundQueue.ReplacementKeepsPosition`).

Properties that a reader would expect and that do not hold are each stated with the input that shows
it and with the exact condition under which they do hold:

* A message that `send` accepts can be refused by the receiver (`MessageStream.LegalStreamRefused`);
  a pump succeeds exactly when what is buffered, dead prefix included, and what arrives fit the cap
  (`MessageStream.PumpAppends`).
* A flush drops entries that are not over age when they were enqueued after the flush read its clock
  (`OutboundQueue.FreshSnapshotDropped`, `OutboundQueue.CulledIffStale`).
* Valid visible chat text can be sanitised to nothing (`ChatProtocol.LongTextLost`,
  `ChatProtocol.SanitizedEmptyExactly`).
* The validator accepts more than RFC 3629 (`Utf8.OverlongAccepted`): what it accepts beyond it are exactly
  texts with a byte C1 (`Utf8.WellFormedVersusRfc`).
* A server name need not be valid UTF-8 (`ServerName.InvalidNamesPass`, `ServerName.ValidNamesExactly`).
* The first argument of a command line does not always come back (`WindowsArgs.ProgramNameChanged`,
  `WindowsArgs.SplitOfCommandLine`).
* Some bindings do not survive saving and loading: a gamepad button without a name is lost
  (`InputBindings.UnnamedButtonLost`), and the backslash key loses the whole file
  (`InputBindings.BackslashKeyLosesFile`); the exact condition is `InputBindings.SaveLoadRoundTrip`, with
  `InputBindings.LabelInvertsExactly` for one input.
* A new server can be turned away although the directory has room (`DirectoryServer.NewServerTurnedAway`,
  `DirectoryServer.RegistrationAcceptedExactly`).
* A relay token can be useless before it expires (`DirectoryServer.TokenOutlivesSession`,
  `DirectoryServer.IssuedTokenOpensRelay`).

Parameters that stand for the outside: the results of socket reads and writes, the time of each step,
the keyed hash of relay tokens and the decoding of server names (`DirectoryServer.Config`), SDL's
scancode names (`InputBindings.Scancodes`), and what the loader knows about entities
(`RegistryPacket.Entities`). Integers written with `memcpy` are taken as little-endian, as on every
platform the game is built for.

## Model

| member | source | states |
|---|---|---|
| Bytes.ValueOfLe | src/network/ChatProtocol.cpp:15-39 | reading a little-endian field gives the written number back if it fits the width |
| Bytes.LeOfValue | src/network/ChatProtocol.cpp:15-39 | writing a read field gives its bytes back |
| Bytes.LittleEndian | src/network/ChatProtocol.cpp:15-26 | the bytes of a 16-bit and a 32-bit field, least significant first |
| MessageStream.MessageStream.Send | src/network/MessageStream.cpp:24-35 | succeeds exactly when connected, within the frame limit and both writes succeed, and then has written one frame; otherwise nothing or only the length |
| MessageStream.MessageStream.RecvCompact | src/network/MessageStream.cpp:37-47 | leaves the unconsumed bytes at offset 0, and moves as many bytes as are live, none if nothing is dead |
| MessageStream.MessageStream.PumpReads | src/network/MessageStream.cpp:49-77 | reads until the socket is empty, an error, or the first read that does not fit, keeping what was read before |
| MessageStream.MessageStream.DrainComplete | src/network/MessageStream.cpp:79-113 | delivers exactly the complete messages of the unconsumed bytes in order, stops for good at an oversize length, and compacts exactly at the thresholds |
| MessageStream.MessageStream.Poll | src/network/MessageStream.cpp:115-123 | a pump and then, only if it succeeded, a drain |
| MessageStream.SplitKeepsBytes | src/network/MessageStream.cpp:85-102 | the messages of any stream, framed again, and its remainder are the stream |
| MessageStream.SplitOfSent | src/network/MessageStream.cpp:24-35 | any prefix of the sent bytes reads as a prefix of the sent messages and less than one more frame; all bytes read as all messages |
| MessageStream.PumpAppends | src/network/MessageStream.cpp:65-76 | a pump succeeds if and only if no read fails and buffered plus received bytes fit the cap, and then appends exactly what it received |
| MessageStream.RunKeepsBytes | src/network/MessageStream.cpp:37-113 | in every run of successful calls the delivered messages, framed again, and the unconsumed bytes are the received bytes |
| MessageStream.RunDelivers | src/network/MessageStream.cpp:37-113 | in every run of successful calls the delivered messages and the unconsumed bytes say exactly what the whole received stream says |
| MessageStream.DrainDeliversStream | src/network/MessageStream.cpp:79-113 | right after a drain the delivered messages are the messages of the received stream, whatever the chunking and compactions |
| MessageStream.OversizeResets | src/network/MessageStream.cpp:88-93 | a drain fails exactly at a length above the limit, with every message before it delivered and the stream reset |
| MessageStream.RunDeliversSent | src/network/MessageStream.cpp:24-113 | a receiver of sent bytes has delivered a prefix of the sent messages, and all of them after draining all bytes |
| MessageStream.CompactionTest | src/network/MessageStream.cpp:107-109 | the quotient test is: more than 64 KiB dead, or more dead than live |
| MessageStream.CompactionCost | src/network/MessageStream.cpp:37-47 | over any run compactions move at most 32 bytes for each byte consumed |
| MessageStream.DeadPrefixBounded | src/network/MessageStream.cpp:104-111 | after a drain the dead prefix is at most 64 KiB and at most the live bytes |
| MessageStream.SmallMessagesFit | src/network/MessageStream.cpp:72-73 | after a drain one more read of a stream of messages of at most 2031613 bytes always fits |
| MessageStream.DrainingReceiverAccepts | src/network/MessageStream.cpp:49-123 | a receiver that drains after every read never refuses such a stream, however it is cut into reads, and has delivered all of it once it has read it |
| MessageStream.LegalStreamRefused | src/network/MessageStream.cpp:72-73 | a maximal message that lacks one byte makes a receiver that has drained refuse a full read of sent bytes |
| SnapshotDelta.EncodeDelta | src/network/RegistrySerialization.cpp:179-223 | the run-finding loops write the triples of the maximal alternating equal and different runs |
| SnapshotDelta.ApplyDelta | src/network/RegistrySerialization.cpp:225-261 | the in-place decoder agrees with the reference decoder on every patch, terminates, and stays inside patch and output |
| SnapshotDelta.AppliedSize | src/network/RegistrySerialization.cpp:225-235 | the decoder gives a buffer of the size asked for or nothing, and nothing for a baseline of another size |
| SnapshotDelta.RoundTrip | src/network/RegistrySerialization.cpp:179-261 | applying an encoded patch gives the current buffer and reads exactly the patch, whatever follows it |
| SnapshotDelta.EncodeInjective | src/network/RegistrySerialization.cpp:179-223 | a patch determines the buffer it encodes |
| SnapshotDelta.ChainReproducesSnapshots | src/network/RegistrySerialization.cpp:179-261 | a chain of deltas reproduces every snapshot of a sequence |
| SnapshotDelta.AcceptedIgnoresTrailing | src/network/RegistrySerialization.cpp:236-260 | any accepted patch stays accepted, with the same output and bytes read, when bytes are added |
| SnapshotDelta.TruncationRejected | src/network/RegistrySerialization.cpp:237-252 | every strict prefix of an encoded patch is rejected |
| SnapshotDelta.CopiesInOrder | src/network/RegistrySerialization.cpp:248-258 | on any patch the copy runs take their bytes from inside the patch, write inside the output, and do not overlap |
| SnapshotDelta.AppliedBytes | src/network/RegistrySerialization.cpp:248-258 | in any accepted output each byte is the covering copy run's byte, or the baseline's |
| SnapshotDelta.OnlyEndsAreEmpty | src/network/RegistrySerialization.cpp:195-206 | only the first skip and only the last copy can be empty |
| SnapshotDelta.PatchSize | src/network/RegistrySerialization.cpp:193-220 | 8 bytes a triple plus one a differing byte, and at most half as many triples as bytes, plus one |
| SnapshotDelta.EncodedSize | src/network/RegistrySerialization.cpp:189-220 | size of a whole patch, its bound, and that only empty buffers have an empty patch |
| SnapshotDelta.IdenticalBuffersPatch | src/network/RegistrySerialization.cpp:195-213 | identical non-empty buffers give one triple: skip everything, copy nothing |
| SnapshotDelta.SizeBoundReached | src/network/RegistrySerialization.cpp:189-191 | the bound is reached for every even length: 4.5 bytes a byte plus 8 |
| RegistryPacket.OutputArchive.AppendRaw | src/network/RegistryArchive.hpp:25-32 | appends the bytes and nothing else |
| RegistryPacket.InputArchive.Read | src/network/RegistryArchive.hpp:59-69 | returns the next bytes and advances, or throws without advancing exactly when too few are left |
| RegistryPacket.ArchivesHoldProgress | src/network/RegistrySerialization.cpp:86-98 | under any schedule each archive holds exactly what its own job has written so far |
| RegistryPacket.FairSchedulesFinish | src/network/RegistrySerialization.cpp:86-98 | a schedule finishes all jobs if and only if it gives each job a turn for each of its calls |
| RegistryPacket.ParallelEqualsSequential | src/network/RegistrySerialization.cpp:79-117 | however the archive calls of any jobs are interleaved, the joined bytes are those of running the jobs one after another |
| RegistryPacket.JobsWriteSnapshot | src/network/RegistrySerialization.cpp:57-61 | the jobs of the types, run one after another, write the blocks of the snapshot |
| RegistryPacket.JoinArchives | src/network/RegistrySerialization.cpp:107-116 | the merge appends the archives in type order |
| RegistryPacket.Serialize | src/network/RegistrySerialization.cpp:263-298 | writes size, snapshot, record count and records |
| RegistryPacket.BlocksRoundTrip | src/network/RegistrySerialization.cpp:57-61 | the typed blocks are self-delimiting: reading them back gives every component of every type |
| RegistryPacket.PacketRoundTrip | src/network/RegistrySerialization.cpp:263-333 | the receiver finds the same blocks and the same input records in a packet |
| RegistryPacket.ParallelPacketRoundTrip | src/network/RegistrySerialization.cpp:79-333 | whatever the schedule of the jobs that write the types, the receiver finds every block and every input record in the packet |
| RegistryPacket.TruncatedSnapshot | src/network/RegistryArchive.hpp:59-69 | a snapshot cut short anywhere cannot be read |
| RegistryPacket.TruncatedPacketThrows | src/network/RegistrySerialization.cpp:300-333 | a packet cut short anywhere makes the loader throw |
| RegistryPacket.PacketLayout | src/network/RegistrySerialization.cpp:263-298 | where size, snapshot, count and records stand in a packet |
| RegistryPacket.RecordLayout | src/network/RegistrySerialization.cpp:279-296 | where entity, tick and the other fields stand in a record |
| RegistryPacket.Loader.Apply | src/network/RegistrySerialization.cpp:300-354 | throws exactly when a section or a record is cut short, and otherwise applies every record in order; records before a cut still count |
| RegistryPacket.LoadedInput | src/network/RegistrySerialization.cpp:326-353 | the local player's input is left alone and its last recorded tick reported; every other live entity gets its last recorded input or keeps its own |
| OutboundQueue.OutboundQueue.Enqueue | src/network/OutboundQueue.cpp:10-40 | replaces the queued message of a non-zero key where it stands, with the new message and its time, otherwise appends; a null message changes nothing |
| OutboundQueue.OutboundQueue.TakeFront | src/network/OutboundQueue.cpp:71-88 | removes the front entry and says whether it is dropped for its age or taken |
| OutboundQueue.OutboundQueue.FlushTo | src/network/OutboundQueue.cpp:54-100 | takes and writes entries until the queue is empty or a write fails, with any messages enqueued between the locked regions, as the flush specification says; without a socket nothing happens |
| OutboundQueue.QuietFlush | src/network/OutboundQueue.cpp:69-98 | if nothing arrives meanwhile, the entries that are not dropped are written in order; at a failing write exactly that entry is lost and the rest stays queued |
| OutboundQueue.FlushIsRun | src/network/OutboundQueue.cpp:54-100 | a flush with any arrivals is a run of the two threads' steps, so every theorem on runs holds of it |
| OutboundQueue.ArrivalsLand | src/network/OutboundQueue.cpp:54-68 | what is enqueued in the run of a flush is exactly what arrives before its locked regions, in order and with its times |
| OutboundQueue.QueuedAsEnqueued | src/network/OutboundQueue.cpp:22-39 | under every interleaving the queued entries of a key are the last ones enqueued with it, each with the time of its enqueue |
| OutboundQueue.ReliableInOrder | src/network/OutboundQueue.cpp:10-100 | under every interleaving the reliable messages written, in flight and queued are those enqueued, in order |
| OutboundQueue.KeyedLatest | src/network/OutboundQueue.cpp:22-33 | under every interleaving a key has at most one queued message, the latest; its written ones are a subsequence of the enqueued ones; the latest is queued, written or dropped |
| OutboundQueue.KeyInvariantHolds | src/network/OutboundQueue.cpp:10-100 | the invariant behind it: each key's departed and queued messages end with the latest enqueued one |
| OutboundQueue.TakenAreWritten | src/network/OutboundQueue.cpp:69-98 | what leaves the queue undropped is what is written, in order, and dropped messages are keyed |
| OutboundQueue.CulledExactly | src/network/OutboundQueue.cpp:79-82 | exactly which entries the unsigned age test drops |
| OutboundQueue.CulledIffStale | src/network/OutboundQueue.cpp:79-82 | dropping means being over age if and only if the entry was enqueued no later than the flush read its clock |
| OutboundQueue.QuietRunsDropOnlyStale | src/network/OutboundQueue.cpp:66-82 | in runs without enqueues during a flush, entries dropped were over age by the time they carry |
| OutboundQueue.QuietDropsExactly | src/network/OutboundQueue.cpp:26-82 | in such runs a keyed message is dropped if and only if its own enqueue step came more than the limit before the flush read its clock |
| OutboundQueue.FlushKeepsClock | src/network/OutboundQueue.cpp:66-67 | a flush keeps the clock and the limit it began with |
| OutboundQueue.FreshSnapshotDropped | src/network/OutboundQueue.cpp:66-82 | a snapshot enqueued just after a flush began is dropped instead of sent |
| OutboundQueue.ReplacementKeepsPosition | src/network/OutboundQueue.cpp:26-31 | a replaced snapshot still goes out before an event enqueued between the two |
| Fragments.ExtendedParts | tools/global_directory_server.py:352-363 | a full set has every index below its count, so the join never misses a part |
| Fragments.ArriveExactly | tools/global_directory_server.py:352-363 | a taken fragment completes the packet exactly when every index is present |
| Fragments.StoredParts | tools/global_directory_server.py:352-360 | while a part is missing, and prunings come in time, the table holds exactly the first-received parts of the packet, from the time of the first |
| Fragments.Reassembly | tools/global_directory_server.py:334-363 | under any order, interleaving and repetition, and any prunings within 3 seconds of the first fragment, the last missing fragment yields the first-received parts joined in index order, and earlier ones yield nothing |
| Fragments.OtherPacketsUntouched | tools/global_directory_server.py:343-362 | a fragment changes nothing of any other packet |
| UdpEndpoint.SendFragmented | src/network/transport/UdpEndpoint.cpp:98-166 | hands the socket the datagrams of all fragments in order, each as often as asked, or of the whole packet; stops at a failure, and refuses more than 255 fragments |
| UdpEndpoint.FragmentDatagramAt | src/network/transport/UdpEndpoint.cpp:147-164 | the datagrams sent are those of the fragments in order, each as often as asked |
| UdpEndpoint.SentAllArrived | src/network/transport/UdpEndpoint.cpp:147-164 | when every datagram that was sent has come at least once, every part has arrived |
| UdpEndpoint.SentIsReceived | src/network/transport/UdpEndpoint.cpp:145-154 | a datagram of a fragment is received as that fragment, with its number, count and bytes |
| UdpEndpoint.WholeIsHandled | tools/global_directory_server.py:308-320 | an unfragmented packet is handled at once, by its kind, and leaves the fragment table alone |
| UdpEndpoint.PacketArrives | tools/global_directory_server.py:308-363 | a packet sent in fragments is handled, by its kind and with exactly its bytes, once its last missing fragment arrives, whatever else arrives and however its datagrams are repeated and reordered; before that its fragments lead to nothing |
| UdpEndpoint.InOrderIsHandled | tools/global_directory_server.py:308-363 | the simplest run of that kind: the fragments arrive in order at an empty table, and exactly the last one leads to the packet |
| Bytes.UnpackOfPack | tools/global_directory_server.py:111-117 | unpacking packed fixed-width fields gives them back, whatever follows |
| Bytes.PackOfUnpack | tools/global_directory_server.py:210-233 | packing unpacked fields gives their bytes back |
| Bytes.FieldAt | tools/global_directory_server.py:235-252 | each field of a packed record stands at the sum of the widths before it |
| DirectoryServer.PacketRoundTrip | tools/global_directory_server.py:210-252 | a packet is parsed into the header and payload it was packed from |
| DirectoryServer.EnvelopeRoundTrip | tools/global_directory_server.py:136-146 | an envelope is parsed into its kind and payload |
| DirectoryServer.RegistrationRoundTrip | tools/global_directory_server.py:149-158 | a registration's fields, its variable-length name included, are read from where they were put |
| DirectoryServer.RelayRoundTrip | tools/global_directory_server.py:436-445 | the token in front of a relayed packet is read back |
| DirectoryServer.PunchRequestRoundTrip | tools/global_directory_server.py:171-175 | a punch request is the id of the server and the nonce of the client, in that order |
| DirectoryServer.HeaderLayout | src/network/transport/PacketHeader.hpp:129-144 | the header fields stand at the offsets the game writes them to |
| DirectoryServer.EnvelopeLayout | tools/global_directory_server.py:136-146 | where magic number, version, kind and payload of a message stand |
| DirectoryServer.RegistrationLayout | tools/global_directory_server.py:149-158 | where the fields of a registration stand |
| DirectoryServer.RelayLayout | tools/global_directory_server.py:436-445 | where token and inner packet stand in a relayed packet |
| DirectoryServer.PacketsExactly | tools/global_directory_server.py:210-233 | a datagram is accepted as a packet if and only if its size is allowed and it starts with the packed header, up to the four unused bytes |
| DirectoryServer.EnvelopesExactly | tools/global_directory_server.py:136-146 | a message is accepted if and only if it is an envelope of its kind and payload |
| DirectoryServer.RegistrationsExactly | tools/global_directory_server.py:149-158 | a registration is accepted if and only if it is the payload of one |
| DirectoryServer.PunchRequestsExactly | tools/global_directory_server.py:171-175 | a punch request is accepted if and only if it is an id and a nonce |
| DirectoryServer.RelayedPacketsExactly | tools/global_directory_server.py:436-445 | a relayed packet is accepted if and only if it holds a token with non-zero id and nonce and an inner packet of at least a header |
| DirectoryServer.DirectoryServer.ReassembleIfNeeded | tools/global_directory_server.py:334-363 | passes unfragmented payloads on and does with a fragment what the reassembly specification says |
| DirectoryServer.DirectoryServer.HandleRegistration | tools/global_directory_server.py:374-406 | updates the server table and answers as specified; a malformed registration changes nothing |
| DirectoryServer.DirectoryServer.HandlePunchRequest | tools/global_directory_server.py:408-434 | opens the session unauthorised and tells both sides, or refuses |
| DirectoryServer.DirectoryServer.HandleRelayPayload | tools/global_directory_server.py:436-464 | relays between the server and its clients as specified, asking for a token where one is needed |
| DirectoryServer.DirectoryServer.HandleDirectoryControl | tools/global_directory_server.py:365-372 | dispatches on the message kind; unknown kinds and malformed envelopes change nothing |
| DirectoryServer.DirectoryServer.ReadUdp | tools/global_directory_server.py:308-332 | one datagram is at most one event on the tables, which stay those of the history of events |
| DirectoryServer.DirectoryServer.PruneServers | tools/global_directory_server.py:483-486 | keeps exactly the servers seen within 15 seconds |
| DirectoryServer.DirectoryServer.PruneSessions | tools/global_directory_server.py:487-489 | keeps exactly the sessions used within 10 seconds |
| DirectoryServer.DirectoryServer.PruneFragmentSets | tools/global_directory_server.py:490-492 | keeps exactly the fragment sets begun within 3 seconds |
| DirectoryServer.DirectoryServer.PruneExpired | tools/global_directory_server.py:481-492 | prunes all three tables as one event |
| DirectoryServer.TablesAlwaysValid | tools/global_directory_server.py:374-434 | in every reachable state both tables are within their limits and every record is stored under its own non-zero id |
| DirectoryServer.EndpointsAreStable | tools/global_directory_server.py:381-396 | a live record's endpoint never changes, and only pruning removes a record |
| DirectoryServer.AcksGoToOwners | tools/global_directory_server.py:383-406 | an accepting acknowledgement goes to the endpoint that owns the id from then on |
| DirectoryServer.RegistrationAcceptedExactly | tools/global_directory_server.py:377-391 | a registration is accepted if and only if its id, or the next id for a new server, is its own or free with room left |
| DirectoryServer.NewServerTurnedAway | tools/global_directory_server.py:377-385 | a new server is turned away with room left when another endpoint has claimed the next id |
| DirectoryServer.NextIdCounts | tools/global_directory_server.py:377-379 | every registration of a new server uses up one id, so the next id is one more than their number |
| DirectoryServer.RegistrationAnswered | tools/global_directory_server.py:374-406 | after any history each registration or heartbeat gets one acknowledgement, accepting exactly if its id is its own or free with room left; nothing else is acknowledged |
| DirectoryServer.NewIdsDiffer | tools/global_directory_server.py:377-406 | two accepted new servers are given different ids, the later one the greater |
| DirectoryServer.NewServersAccepted | tools/global_directory_server.py:377-406 | in a history that only uses ids that were handed out, every new server is accepted while there is room, under an id of its own |
| DirectoryServer.PruneKeepsTheLiving | tools/global_directory_server.py:481-489 | after pruning exactly the entries within their lifetimes remain, unchanged |
| DirectoryServer.SessionStep | tools/global_directory_server.py:419-463 | an event opens a session unauthorised, or moves it only to an address authorised for it or presenting a verifying token |
| DirectoryServer.PunchAnswered | tools/global_directory_server.py:408-430 | a punch request that opens its session tells the server the address of the client and gives the client the record and the token; any other is refused |
| DirectoryServer.RepliesGoBack | tools/global_directory_server.py:365-372 | all other messages go back to the sender, and a list is sent exactly when one is asked for |
| DirectoryServer.AuthorisedEndpoints | tools/global_directory_server.py:408-463 | in every reachable state an authorised session's endpoint has presented a token verifying for it since the session was last opened |
| DirectoryServer.RelayedPayloads | tools/global_directory_server.py:451-464 | every relayed payload is unchanged and goes from the server's address to the session's endpoint, or to the server from an address that has presented a verifying token since the session was last opened |
| DirectoryServer.RelayedExactly | tools/global_directory_server.py:449-464 | which packets are relayed, and where to: those between a session and its server that are not too long |
| DirectoryServer.SessionLivesExactly | tools/global_directory_server.py:408-489 | after any history a session is in the tables if and only if every pruning since it was last opened or used came within 10 seconds of that; it is at the address of that event, and authorised if and only if that was a use |
| DirectoryServer.ServerLivesExactly | tools/global_directory_server.py:374-486 | after any history a server is in the tables if and only if every pruning since its last accepted registration or heartbeat came within 15 seconds of that; its record holds what that said and where it came from |
| DirectoryServer.SessionsHoldTokens | tools/global_directory_server.py:419-423 | a session holds the expiry and signature of its last opening |
| DirectoryServer.IssuedTokenRelays | tools/global_directory_server.py:436-464 | in any tables, a packet with an issued token from an address other than the server's is relayed, and answered to that address, if and only if server and session are there and the address is authorised already or the token unexpired |
| DirectoryServer.IssuedTokenOpensRelay | tools/global_directory_server.py:408-489 | the token a punch response carries, used after any further events, opens the relay exactly while the session and the server live and, unless the address is authorised already, until it expires |
| DirectoryServer.TokenOutlivesSession | tools/global_directory_server.py:449-489 | 11 seconds after the punch the token still verifies and the server lives, but the session has been pruned and the packet is dropped |
| DirectoryServer.DirectoryServer.SessionsAreAuthorised | tools/global_directory_server.py:408-463 | the authorisation property for a server object |
| Utf8.UnitByCodePoint | src/network/ChatProtocol.cpp:70-106 | the validator's decision on code points is the byte-range table of RFC 3629 with C1 added |
| Utf8.IsValidUtf8 | src/network/ChatProtocol.cpp:66-109 | accepts exactly the sequences of units of that table |
| Utf8.WellFormedVersusRfc | src/network/ChatProtocol.cpp:78-82 | a text is well-formed by RFC 3629 if and only if it is accepted and has no byte C1 |
| Utf8.OverlongAccepted | src/network/ChatProtocol.cpp:78-82 | the overlong encoding C1 80 is accepted and is not well-formed by RFC 3629 |
| ChatProtocol.SanitizeUtf8 | src/network/ChatProtocol.cpp:111-137 | the loops compute the cleaned, cut and trimmed text, or nothing if that is not valid |
| ChatProtocol.TidyMeans | src/network/ChatProtocol.cpp:118-130 | what the cleaning establishes, in terms of positions: no controls, no space after a space, none in front |
| ChatProtocol.SanitizeIsCanonical | src/network/ChatProtocol.cpp:111-137 | every result is valid, at most 240 bytes, without controls and without leading, trailing or doubled spaces |
| ChatProtocol.CanonicalIsFixed | src/network/ChatProtocol.cpp:111-137 | exactly such text is left alone |
| ChatProtocol.SanitizeJoinsWords | src/network/ChatProtocol.cpp:111-137 | the result is the words of the text with single spaces between them, cut at 240 bytes; spaces end words and control bytes are as if they were not there |
| ChatProtocol.SanitizeIdempotent | src/network/ChatProtocol.cpp:111-137 | sanitising twice is sanitising once |
| ChatProtocol.CleanWellFormed | src/network/ChatProtocol.cpp:119-130 | cleaning valid text gives valid text |
| ChatProtocol.SanitizedEmptyExactly | src/network/ChatProtocol.cpp:111-137 | the result is empty exactly when the text is invalid, has nothing visible, or is cut inside a character; otherwise the visible bytes are kept in order, up to the cut |
| ChatProtocol.LongTextLost | src/network/ChatProtocol.cpp:126-135 | 239 letters and a two-byte character are valid and visible and give nothing |
| ChatProtocol.EncodeClientText | src/network/ChatProtocol.cpp:139-152 | writes the packet of the sanitised text, or nothing if that is empty |
| ChatProtocol.EncodeServerText | src/network/ChatProtocol.cpp:154-168 | the same for the server's packet |
| ChatProtocol.ClientRoundTrip | src/network/ChatProtocol.cpp:139-184 | decoding an encoded client message gives the sequence number and the sanitised text |
| ChatProtocol.ServerRoundTrip | src/network/ChatProtocol.cpp:154-202 | decoding an encoded server message gives sender, sequence number and the sanitised text |
| ChatProtocol.PacketLayouts | src/network/ChatProtocol.cpp:139-168 | where the fields of the two packets stand |
| ChatProtocol.AcceptedExactly | src/network/ChatProtocol.cpp:170-202 | which bytes are accepted as a message: right type, right length, and text that can be sanitised to something |
| ChatProtocol.AcceptedTextIsCanonical | src/network/ChatProtocol.cpp:170-184 | whatever bytes arrive, an accepted message is canonical, not empty, and survives being sent on |
| ChatProtocol.AcceptedServerTextIsCanonical | src/network/ChatProtocol.cpp:186-202 | the same for what a client accepts |
| ServerName.ClampUtf8Bytes | src/network/ServerName.hpp:15-53 | takes the units at the front, judged by lead and continuation bits, that fit in 32 bytes |
| ServerName.Sanitize | src/network/ServerName.hpp:55-66 | the clamped value, else the clamped fallback, else the default name |
| ServerName.ClampIsLongestValidPrefix | src/network/ServerName.hpp:15-53 | on valid text the result is the longest valid prefix that fits |
| ServerName.ClampIdempotent | src/network/ServerName.hpp:15-53 | clamping again changes nothing, whatever the bytes |
| ServerName.NamesAreStable | src/network/ServerName.hpp:55-66 | names are never empty, fit, and are left alone when sanitised again; valid input gives valid names |
| ServerName.ClampValidExactly | src/network/ServerName.hpp:15-53 | clamped text is valid if and only if, behind the valid units at its front that fit, no loose unit is taken |
| ServerName.ValidNamesExactly | src/network/ServerName.hpp:55-66 | a name is valid if and only if the text it is taken from stops cleanly in that sense |
| ServerName.InvalidNamesPass | src/network/ServerName.hpp:22-46 | an overlong sequence and a surrogate are let through as names |
| WindowsArgs.QuoteWindowsArg | src/client/host/HostedServer.cpp:123-148 | the loop writes the quoted form defined on runs of backslashes |
| WindowsArgs.BuildWindowsCommandLine | src/client/host/HostedServer.cpp:150-160 | the quoted arguments with single spaces between them |
| WindowsArgs.UnquotedExactly | src/client/host/HostedServer.cpp:123-128 | an argument is passed on as it is if and only if it is not empty and has no space, tab, line break, vertical tab or quote |
| WindowsArgs.QuotedParses | src/client/host/HostedServer.cpp:123-148 | the splitting rules read any quoted argument back as itself and stop behind it |
| WindowsArgs.RestParses | src/client/host/HostedServer.cpp:150-160 | all arguments after the first come back, whatever they contain |
| WindowsArgs.ProgramSeen | src/client/host/HostedServer.cpp:123-148 | the program name is seen with the backslashes at its end doubled if it needed quotes |
| WindowsArgs.SplitOfCommandLine | src/client/host/HostedServer.cpp:123-160 | splitting the command line gives back the arguments if and only if there is a program name without quotes that does not end in a backslash while needing quotes |
| WindowsArgs.ProgramNameChanged | src/client/host/HostedServer.cpp:123-148 | a program name with a space and a backslash at its end is seen with that backslash twice |
| InputBindings.InputBindings.Get | src/client/config/InputBindings.cpp:234-239 | the cell of an action and slot, unbound outside the slots |
| InputBindings.InputBindings.Rebind | src/client/config/InputBindings.cpp:241-259 | puts the binding in its cell, clears it from every other cell of the device, keeps all bindings unique, and leaves the other device alone |
| InputBindings.SameIsEqual | src/client/config/InputBindings.cpp:32-52 | the comparison is equality of assigned inputs, for every kind of input |
| InputBindings.AssignedExactly | src/client/config/InputBindings.cpp:13-30 | assigned are the inputs with a name of the program, the scancodes but 0, and the buttons without a name |
| InputBindings.ReboundKeepsUnique | src/client/config/InputBindings.cpp:247-256 | no assigned input is ever in two cells |
| InputBindings.RebindingsDecide | src/client/config/InputBindings.cpp:241-259 | after any rebindings a cell holds an input if and only if the last one that concerns the cell or the input put it there |
| InputBindings.KeysDiffer | src/client/config/InputBindings.cpp:409-462 | the 46 keys of the settings file are all different |
| InputBindings.LabelInvertsExactly | src/client/config/InputBindings.cpp:475-556 | a saved value is read back as its binding exactly for inputs with a name of the program and for scancodes whose SDL name can be written between quotes and leads back to them |
| InputBindings.ValuesAreInputs | src/client/config/InputBindings.cpp:501-556 | a value is read as an assigned input or none at all, and refused exactly if it is no name |
| InputBindings.LabelsExactly | src/client/config/InputBindings.cpp:475-500 | every input has the label of its name, and those without a name the label "Unbound" |
| InputBindings.NamelessInputs | src/client/config/InputBindings.cpp:85-108 | among mouse and gamepad inputs exactly the buttons missing from the table have no name |
| InputBindings.SaveTable | src/client/config/UserSettings.cpp:211-229 | writes the value of every cell under its key, between quotes and without escaping |
| InputBindings.LoadTable | src/client/config/UserSettings.cpp:145-168 | rebinds every cell whose key is present and whose value parses, in order |
| InputBindings.Save | src/client/config/UserSettings.cpp:211-229 | writes the sections of both devices |
| InputBindings.Load | src/client/config/UserSettings.cpp:82-172 | loads both sections, or leaves both tables as they are if any value cannot be read |
| InputBindings.SavedSectionReads | src/client/config/UserSettings.cpp:89-95 | a saved section can be read, and then gives the saved values, if and only if no value holds a quote, a backslash or a control character but tabs |
| InputBindings.PlainByGrammar | src/client/config/UserSettings.cpp:89-95 | the characters of a value that stand for themselves are those the grammar of TOML 1.0 allows in a basic string |
| InputBindings.SaveLoadRoundTrip | src/client/config/UserSettings.cpp:82-229 | loading saved bindings over any bindings restores both tables if and only if every assigned binding has a fixed name or is a scancode whose name can be written and leads back to it |
| InputBindings.BackslashKeyLosesFile | src/client/config/UserSettings.cpp:92-215 | with the backslash key bound, the saved file is not readable and no binding is restored, although the label leads back to the key |
| InputBindings.UnnamedButtonLost | src/client/config/InputBindings.cpp:85-108 | a gamepad button without a name is unbound after saving and loading |
| HudClipSpans.HudContext.BeginFrame | src/client/hud/HudContext.cpp:21-28 | an empty frame |
| HudClipSpans.HudContext.EndFrame | src/client/hud/HudContext.cpp:30-35 | flushes what is left |
| HudClipSpans.HudContext.FlushClipSpan | src/client/hud/HudContext.cpp:106-132 | closes the current run as one span with the clip on top, if it has vertices |
| HudClipSpans.HudContext.EmitVertices | src/client/hud/HudContext.cpp:85-103 | appends vertices and marks them unflushed |
| HudClipSpans.HudContext.PushClipRect | src/client/hud/HudContext.cpp:626-631 | closes the run before the clip changes |
| HudClipSpans.HudContext.PopClipRect | src/client/hud/HudContext.cpp:633-639 | closes the run before the clip changes; popping an empty stack is harmless |
| HudClipSpans.FrameIsPartitioned | src/client/hud/HudContext.cpp:21-132 | for every sequence of emits, pushes and pops the frame holds exactly the emitted vertices in order, and its spans are non-empty, contiguous, cover all of them and carry the clip that was innermost when each was emitted; so there are spans whenever there are vertices |
| ShotRing.ShotRing.FindShotPairByTick | src/client/debug/DebugUI.cpp:2598-2610 | finds a live slot with the tick, or none exactly if the recent shots have none |
| ShotRing.ShotRing.Push | src/client/debug/DebugUI.cpp:2735-2764 | the ring's newest-first walk is the list of recent shots with the report added |
| ShotRing.ClaimHead | src/client/debug/DebugUI.cpp:2740-2745 | claiming the head slot puts a pair in front of the walk and drops only the oldest |
| ShotRing.UpdateLive | src/client/debug/DebugUI.cpp:2747-2748 | completing a live slot changes only its pair in the walk |
| ShotRing.WalkLists | src/client/debug/DebugUI.cpp:2797-2800 | the walk lists every live slot exactly once |
| ShotRing.ReportsCommute | src/client/debug/DebugUI.cpp:2735-2764 | a client's and a server's report of one tick give the same list in either order |
| ShotRing.RecentTicks | src/client/debug/DebugUI.cpp:2735-2764 | the list is, newest first, the 30 most recently created ticks, all different |
| ShotRing.ViewsAreLastReports | src/client/debug/DebugUI.cpp:2735-2764 | each listed shot shows, for the client and for the server, the last report of that side about its tick since it was entered, or nothing |

## Left out

- Sockets, clocks, mutexes and threads themselves: a read is a piece of bytes or an error, a write may fail, each locked region is one step, and the directory reads one time per step where the code reads the clock a few times.
- The rounding of `float` quotients: the compaction test is over real numbers, with which the 32-bit quotient agrees below 2^24; likewise the conversion of vertex indices to `float` in clip spans.
- SnapshotDelta.RoundTrip: for buffers shorter than 2^32 bytes, because the code truncates run lengths and the packet carries the size in 32 bits.
- Sharing of message buffers between clients, `depth`, `totalBytes` and `clear` of the outbound queue.
- The defensive skip of a null entry in a flush: the model's entries always hold bytes, because `enqueue` refuses null.
- EnTT's own serialisation: a type's block is a count and, for each entity, its id and a component of fixed size; the free list in the block of entity ids is not part of this model.
- The receiving side of the game for fragments, and its relay envelopes: the directory is the receiver here.
- HMAC and SHA-256: `sign` is any function; nothing is claimed about forging tokens.
- The bytes of directory replies, their size limit, and which five servers a list shows; only relayed payloads are subject to the packet limit here.
- DirectoryServer.TablesAlwaysValid: server ids are unbounded here, while the code fails to pack an acknowledgement once the next id no longer fits 32 bits.
- Log output and the malformed-packet counters of the directory; the C++ directory server.
- NUL characters in command-line arguments, which end a C string early.
- InputBindings.ReadQuoted: takes any value with a quote or a backslash as unreadable, while TOML gives some of them another meaning (an escape sequence, a comment after an early closing quote); the value is not the label then either, and no name of SDL's is of that kind.
- TOML syntax otherwise, a missing file, the fallback to a section without device tables, and all other settings.
- The program's default bindings, and what pressing an input does.
- `tintVertices` and `rotateVertices`, which change no counts, and the geometry of primitives; `pushClientShot` and `pushServerShot` are one method with the side as a parameter.
- Voice packets, UDP sessions, animation, rendering, physics, audio, scripts and the website.
