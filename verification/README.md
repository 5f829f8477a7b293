# A verified model of the multiplayer bridge's protocols

The repository connects Minecraft players (and other games) over a peer-to-peer network. This Dafny project
models the parts of it where correctness is decided by state and bytes rather than by sockets, and proves what
they keep:

- **The FastLink room server** (`RoomState`, `RoomInvariants`, `RoomMembership`, `RoomLog`, `RoomNotices`,
  `RoomWaits`, `RoomServer`): rooms, members, clients, bans, heartbeats and the numbered log of every response. One
  transition per handler, proved about over whole runs; classes whose methods take the server from one state to the
  next.
- **Wire formats and stream parsers** (`Crc32`, `Crc32Polynomial`, `FastLinkPacket`, `VarInt`, `MinecraftProxy`,
  `ProtocolAdapter`, `ModProtocol`, `ModMessages`, `ModReading`, `TcpBridge`, `WireExamples`): the 24-byte header with
  its CRC-32 (section 8 of RFC 1952), VarInts (the byte form of unsigned LEB128, section 7.6 of DWARF Version 4),
  Minecraft packets and the proxy's relay loop, and the mod protocol as one side writes it in Python and the other
  reads it in Java, and the reverse.
- **Hole punching** (`HolePunch`, `PeerTable`, `BirthdayPunch`): predicted ports, the bounded attempt machine, the
  peer table against its connected index.
- **Reputation, mailbox and two-way tables** (`Reputation`, `Signaling`, `Mapping`).

`Bytes`, `Utf8`, `PyDict` and `Sorting` hold what several of them share: byte strings and big-endian fields,
well-formed UTF-8 (section 4 of RFC 3629), Python's insertion-ordered dictionaries, sorting a set of numbers.

An object that the source updates in place is a class here, and each of its methods is proved equal to a function
on values; the theorems are about those functions. Where a property the code is meant to have does not hold of it
for every input, the theorem gives the exact condition under which it does. Text is the byte string of its
encoding on the wire, and decoding raises where those bytes are not UTF-8; elsewhere it is an opaque string. Floats
are reals; clocks, fresh identifiers, the order in which a set is walked, the answers of a peer and the outcome of a
send are inputs.

## What the proofs show about the code

- Membership is stored twice, in `room.members` and in the client's set of rooms. The copies agree throughout a run
  exactly when no connection authenticates while it is in a room, every join that gets in is by a node that is
  registered on that connection (or in the room already) while every other node registered on it is in the room too,
  and nobody is banned while inside (`RoomMembership.AgreementExactly`). The code guards none of the three; two
  concrete runs show what follows (`EvictedJoins`, `TwiceAuthenticated`).
- A handler waits only where a response is written to its socket, and encoding that response raises, before the
  socket is reached, at every clock from February 1970 on (`RoomWaits.NoPauseToday`). So today each handler is one
  step, as the theorems about runs have it. At a clock that fits, an eviction can wait while it tells a room that its
  client has left, and another handler can run (`RoomWaits.JoinSlipsIn` is an instance):
  - The client's own join of the room being told, or anybody else's entering or leaving it, makes the eviction raise:
    the notices go through a dictionary that has changed its size. The client stays registered
    (`RoomWaits.OwnJoin`, `RoomWaits.OtherHandler`). After its own join the two copies of membership agree; after
    somebody else's step the room is in the client's set although the client is no member, until the next eviction
    of that client repairs it (`RoomWaits.RetryRepairs`).
  - After any other orderly step of somebody else the eviction ends with the copies in agreement. The client's own
    join of another room leaves it in that room without being a client, unless the eviction still comes to that room.
- `last_heartbeat` is read but never set, so at every heartbeat round a client is stale exactly if its connection was
  accepted more than 30 seconds before (`RoomInvariants.StaleExactly`), and the round evicts it
  (`RoomServer.FastLinkServer.HeartbeatRound`). With a round every 10 seconds
  (src/protocol/fastlink/server.py:291) that is 30 to 40 seconds after connecting, whatever the client sends.
- The permission check of a room message never refuses a member: joining hands out only roles that may speak
  (`RoomLog.MembersMaySpeak`).
- `FastLinkPacket.encode` puts milliseconds since 1970 into 32 bits and therefore raises for every clock later than
  February 1970 (`FastLinkPacket.NoneSince1970`), so today no response leaves. Nothing catches the exception in a
  hole-punching loop, which ends with its first attempt and sends nothing (`HolePunch.ClocksDecide`). In a peer's
  heartbeat loop it skips the stale check, so over a whole run nobody times out (`PeerTable.NobodyTimesOut`).
- A server record's default latency of -1 keeps the whole server list from being sent
  (`ModProtocol.DefaultLatencyStopsList`), and an empty server-list packet ends the mod's read loop
  (`ModMessages.EmptyListEndsLoop`).
- A peer that is connected again from a fresh record stays listed as connected although nothing can be sent to it
  (`PeerTable.ListedButUnreachable`).
- Predicted ports are reduced modulo 65535, not 64511 as SUMMARY.md:138 says, so they can exceed 65535
  (`HolePunch.UsableExactly`).
- Only the first five predicted ports are tried, so for a simultaneous start `base + 2 * increment`, added on purpose
  as a common port, is tried only within three increments of the lowest port, 1024
  (`BirthdayPunch.CommonPortTried`).
- A login-success packet cut inside its name is accepted with a shorter name when the cut falls between two
  characters and rejected when it falls inside one, and so is a mod's handshake cut inside the player's name; a bridge
  packet cut inside its payload is always accepted as a shorter one (`ProtocolAdapter.LoginSuccessOnPrefix`,
  `ModReading.HandshakeOnPrefix`, `TcpBridge.CutExactly`).
- Loading item mappings raises at the first usable entry, and an item never translates back
  (`Mapping.ItemsNeverBack`).

## Model

| member | source | states |
|---|---|---|
| RoomState.Step | src/protocol/fastlink/server.py:433-450 | no response a handler sends changes a table |
| RoomInvariants.StepKeepsRooms | src/protocol/fastlink/server.py:158-178 | every step keeps each room under its own key, within its limit, free of banned members, with OWNER for its owner and MEMBER for everyone else, and the public index exact |
| RoomInvariants.RoomsOverRuns | src/protocol/fastlink/server.py:504-551 | the same at the end of every possible run, orderly or not |
| RoomInvariants.BanPutsOut | src/protocol/fastlink/server.py:175-178 | a ban puts the node out of the room, touches no other membership and keeps it from joining |
| RoomInvariants.BannedForGood | src/protocol/fastlink/server.py:158-178 | on every run, whoever is banned from a room at some moment is never in it again |
| RoomInvariants.CreatedExactly | src/protocol/fastlink/server.py:813-832 | a room made by the server is empty, owned by it, as asked for and listed exactly if public; all else stays |
| RoomInvariants.SessionsBeginAndEnd | src/protocol/fastlink/server.py:387-431 | a connection begins unauthenticated and in no room, and with its end its node is no client |
| RoomInvariants.StaleExactly | src/protocol/fastlink/server.py:777-780 | on every run a client is stale for the heartbeat exactly if its connection was accepted more than 30 seconds before, because nothing but the accepting sets the time that is compared |
| RoomMembership.JoinExactly | src/protocol/fastlink/server.py:490-571 | a join keeps the two copies of membership together exactly when it is refused, or its node is registered on the connection or already in the room and every other node on the connection is in the room; for members-are-clients alone the first part decides |
| RoomMembership.AuthExactly | src/protocol/fastlink/server.py:452-488 | an authentication keeps them together exactly when its connection is in no room; members stay clients in any case |
| RoomMembership.BanExactly | src/protocol/fastlink/server.py:175-178 | a ban keeps them together exactly when the node is outside; members stay clients in any case |
| RoomMembership.ExpelEffect | src/protocol/fastlink/server.py:734-752 | removal takes one node out of one room, and the room out of the set its connection holds, and no other |
| RoomMembership.ExpelExactly | src/protocol/fastlink/server.py:734-752 | it keeps the copies together exactly when no other node on that connection is in the room |
| RoomMembership.DropEffect | src/protocol/fastlink/server.py:754-767 | after a disconnect the node is registered nowhere and in no room, everyone else's membership and registration as before |
| RoomMembership.DropExactly | src/protocol/fastlink/server.py:754-767 | it keeps the copies together exactly when no other node on that connection is in any room |
| RoomMembership.StepExactly | src/protocol/fastlink/server.py:433-450 | a step keeps the copies together (or members clients) if and only if it is orderly, which a caller can look up beforehand |
| RoomMembership.MembershipExactly | src/protocol/fastlink/server.py:433-781 | over every run the copies agree (or members are clients) at every moment if and only if every step was orderly |
| RoomMembership.AgreementExactly | src/protocol/fastlink/server.py:452-571 | from the start they agree at every moment if and only if no connection authenticated while in a room, every admitted join was safe and nobody was banned while inside: leaving, closing and evicting cannot part them |
| RoomMembership.JoinThenLeave | src/protocol/fastlink/server.py:490-589 | leaving undoes joining on all tables, but for a room the join created |
| RoomMembership.EvictedJoins | src/protocol/fastlink/server.py:490-551 | a run after which an evicted client is a member without being registered |
| RoomMembership.TwiceAuthenticated | src/protocol/fastlink/server.py:452-475 | a run after which a node is a member although every connection is closed |
| RoomWaits.ToldExactly | src/protocol/fastlink/server.py:734-747 | leaving a room issues a notice, and so can wait, exactly if a registered member stays behind |
| RoomWaits.PausesExactly | src/protocol/fastlink/server.py:713-747 | an eviction waits at a room exactly if it issues a notice there whose number, clock and text fit their fields |
| RoomWaits.NoPauseToday | src/protocol/fastlink/server.py:713-729 | from 2^32 milliseconds after the epoch on no notice reaches the socket, so an eviction never waits |
| RoomWaits.OwnJoin | src/protocol/fastlink/server.py:734-767 | a client joins while a room is told of its eviction: if it gets into that room, the eviction raises and the client stays registered in that room and those to come; otherwise it is no client in the end, and in the joined room exactly if it got in and the room was not still to come; the copies agree unless it got into a room the eviction was through with |
| RoomWaits.OtherHandler | src/protocol/fastlink/server.py:699-767 | an orderly step of somebody else meanwhile: the eviction raises exactly if the step lets somebody into or out of the room being told, leaving the client registered with that room in its set but not a member; otherwise the client goes and the copies agree |
| RoomWaits.RetryRepairs | src/protocol/fastlink/server.py:754-765 | evicting a client left behind in that way makes the copies agree again |
| RoomWaits.JoinSlipsIn | src/protocol/fastlink/server.py:754-767 | a reachable server on which an eviction waits, and what the client's join of a new room, its join of the same room and another's join of the same room then lead to |
| RoomLog.BroadcastExactly | src/protocol/fastlink/server.py:699-711 | a broadcast sends its packet once to each registered member not excluded, under consecutive numbers, and nothing to anyone else |
| RoomLog.AudienceIsRoom | src/protocol/fastlink/server.py:699-711 | while membership agrees, no member is missed |
| RoomLog.StepExtends | src/protocol/fastlink/server.py:713-732 | a step only appends to the log, with the next numbers, tells nobody of their own joining or leaving, and sends chat only in answer to a member who may speak |
| RoomLog.LogOverRuns | src/protocol/fastlink/server.py:808-811 | over every run the responses are numbered 1, 2, 3, ... without gap or repeat, and no join or leave notice goes to its subject |
| RoomLog.ChatProvenance | src/protocol/fastlink/server.py:591-628 | every chat entry of every run comes from a step in which its sender was a member allowed to speak and its receiver a member of the same room |
| RoomLog.PermissionsExactly | src/protocol/fastlink/server.py:81-99 | which permission needs which rank, and that every higher role has what a lower one has |
| RoomLog.MembersMaySpeak | src/protocol/fastlink/server.py:81-99 | whoever is in a room passes the permission check there, and nobody else does |
| RoomLog.SayExactly | src/protocol/fastlink/server.py:591-628 | a registered sender's message reaches the whole room once each if the sender is in it, and nobody if not |
| RoomLog.RoomListExact | src/protocol/fastlink/server.py:682-697 | the room list answer goes to its sender, once, and holds every public room once and no other, with its visibility, limit, owner and number of members in the table; without authentication there is no answer |
| RoomNotices.JoinDecided | src/protocol/fastlink/server.py:504-571 | a join is answered last and succeeds exactly when the password fits, the node is not banned and the room not full; the first failing check is the reason given; membership grows only on success; a room that was not there is made, public and with that password, and its maker gets in as its only member and owner |
| RoomNotices.JoinTold | src/protocol/fastlink/server.py:541-571 | after an admitted join each other registered member of the room hears once that the node joined, on its own connection and under the next numbers, and then the node is answered with the room's present settings and size and with everybody in it, itself included; while all members are registered, the others are the whole room |
| RoomNotices.JoinerSeated | src/protocol/fastlink/server.py:533-551 | the joiner is seated under the name and platform of its connection, as OWNER exactly of a room it owns; all else stays, but a room made for it |
| RoomNotices.SyncCount | src/protocol/fastlink/server.py:656-680 | a state update over any list of rooms reaches every other node once for each of them shared with the sender |
| RoomNotices.SyncReaches | src/protocol/fastlink/server.py:656-680 | a registered client's state update reaches every other node as many times as there are rooms with both of them inside |
| RoomNotices.SyncSays | src/protocol/fastlink/server.py:656-680 | every entry a state update adds carries its type, data and stamp and the sender's id, to a registered connection |
| RoomNotices.DepartureCount | src/protocol/fastlink/server.py:754-767 | a departure from any list of distinct rooms is told to every other node once for each of them shared |
| RoomNotices.DisconnectReaches | src/protocol/fastlink/server.py:754-767 | a disconnect is told to every other node as many times as there were rooms with both of them inside |
| RoomNotices.LeaveTold | src/protocol/fastlink/server.py:734-747 | everyone who stays in a room hears once who left it, and nobody else does |
| RoomNotices.TickExactly | src/protocol/fastlink/server.py:787-800 | a tick tells everyone in the room once how many they are |
| RoomNotices.DirectTold | src/protocol/fastlink/server.py:630-654 | a direct message reaches a registered target once, on its connection, with the sender's id and name; otherwise nobody hears of it |
| RoomNotices.AuthTold | src/protocol/fastlink/server.py:452-488 | after an authentication the connection speaks for the new id under the name it gave and is answered with that id; every other registration, every room and every set of rooms is as before |
| RoomServer.RoomInfo.AddMember | src/protocol/fastlink/server.py:158-166 | adds exactly when the node is not banned and the room not full, and otherwise changes nothing |
| RoomServer.RoomInfo.RemoveMember | src/protocol/fastlink/server.py:168-173 | takes the member out, keeping the order of the others |
| RoomServer.RoomInfo.BanMember | src/protocol/fastlink/server.py:175-178 | bans and takes out at once |
| RoomServer.FastLinkServer.SendResponse | src/protocol/fastlink/server.py:713-732 | takes the next number and logs one response |
| RoomServer.FastLinkServer.BroadcastToRoom | src/protocol/fastlink/server.py:699-711 | the loop over the members is the broadcast of the state machine |
| RoomServer.FastLinkServer.RemoveFromRoom | src/protocol/fastlink/server.py:734-752 | out of the members, notices, out of the client's set, as the state machine has it |
| RoomServer.FastLinkServer.DisconnectClient | src/protocol/fastlink/server.py:754-767 | the loop over a copy of the client's rooms is the disconnect of the state machine in some order of those rooms |
| RoomServer.FastLinkServer.Accept | src/protocol/fastlink/server.py:379-393 | a new connection starts unauthenticated and in no room |
| RoomServer.FastLinkServer.Close | src/protocol/fastlink/server.py:421-431 | the end of a connection disconnects whatever node it speaks for |
| RoomServer.FastLinkServer.HandleAuth | src/protocol/fastlink/server.py:452-488 | registers the connection under the new id and answers |
| RoomServer.FastLinkServer.HandleJoinRoom | src/protocol/fastlink/server.py:490-571 | room creation, checks, admission, notice and answer are the join of the state machine |
| RoomServer.FastLinkServer.HandleLeaveRoom | src/protocol/fastlink/server.py:573-589 | leaves only a room in the client's set |
| RoomServer.FastLinkServer.HandleBroadcast | src/protocol/fastlink/server.py:591-628 | the guards in a row are the condition to speak |
| RoomServer.FastLinkServer.HandleDirect | src/protocol/fastlink/server.py:630-654 | one message to a registered target, none otherwise |
| RoomServer.FastLinkServer.HandleStateSync | src/protocol/fastlink/server.py:656-680 | one broadcast for each of the client's rooms it is a member of |
| RoomServer.FastLinkServer.HandleRoomList | src/protocol/fastlink/server.py:682-697 | the loop over the public index builds the answer of the state machine |
| RoomServer.FastLinkServer.CreateRoom | src/protocol/fastlink/server.py:813-832 | a room owned by the server itself, listed exactly if public |
| RoomServer.FastLinkServer.SyncRound | src/protocol/fastlink/server.py:787-800 | one round of the sync loop is one tick of every room in order |
| RoomServer.FastLinkServer.HeartbeatRound | src/protocol/fastlink/server.py:769-781 | evicts only clients older than 30 seconds and leaves none of them |
| RoomServer.HeartbeatIsRun | src/protocol/fastlink/server.py:769-781 | a heartbeat round is a possible run of the state machine |
| Reputation.NodeReputation.ApplyPenalty | src/protocol/fastlink/server.py:234-247 | lowers the score by the tabled penalty, not below 0, and logs it |
| Reputation.NodeReputation.RecordSuccess | src/protocol/fastlink/server.py:249-260 | counts the packet, smooths the latency and restores a tenth of a point, not above 100 |
| Reputation.NodeReputation.RecordFailure | src/protocol/fastlink/server.py:262-265 | counts the packet as failed |
| Reputation.NodeReputation.GetLossRate | src/protocol/fastlink/server.py:267-271 | the failed share of the packets, between 0 and 1 |
| Reputation.PenaltyExactly | src/protocol/fastlink/server.py:224-247 | what each kind of penalty costs, any other kind 5, and that a penalty takes just that off the score, or what is left, and logs it |
| Reputation.AverageExactly | src/protocol/fastlink/server.py:253-257 | with latencies above 0 the average is the sum of all of them, the last counting a tenth and each earlier one nine tenths of the next, the first unthinned |
| Reputation.ScoreOverRuns | src/protocol/fastlink/server.py:213-247 | the score stays in [0, 100] and no further below 100 than the penalties sum to |
| Reputation.CountersOverRuns | src/protocol/fastlink/server.py:249-265 | over every run the counters count each success and failure once |
| Reputation.LatencyOverRuns | src/protocol/fastlink/server.py:249-258 | the average stays within any bounds that hold for every recorded latency |
| Reputation.Recovery | src/protocol/fastlink/server.py:259-260 | without penalties the score is the old one plus a tenth per success, capped |
| Reputation.ReplayNeeds500 | src/protocol/fastlink/server.py:225-275 | after a replay penalty 500 successes are needed for trust at 50, and suffice without further penalties |
| Crc32.RegisterIsSerial | src/protocol/fastlink/packet.py:101-105 | the byte-wise register computes the bit-serial one |
| Crc32.BurstDetected | src/protocol/fastlink/packet.py:101-105 | payloads of one length that differ only inside 32 consecutive bits, anywhere, have different checksums |
| Crc32.FourBytesDetected | src/protocol/fastlink/packet.py:101-105 | the same for four consecutive bytes |
| Crc32Polynomial.ChecksumIsRemainder | src/protocol/fastlink/packet.py:101-105 | the checksum is the complement of the remainder, over GF(2), of the payload bits (lowest first, the first 32 complemented, 32 zeros appended) by the generator polynomial given by its exponents, and the only such remainder |
| Crc32Polynomial.RemainderUnique | src/protocol/fastlink/packet.py:101-105 | a polynomial has one remainder by that generator |
| FastLinkPacket.FastLinkPacket.Encode | src/protocol/fastlink/packet.py:113-119 | stamps length, checksum and clock into the header and returns the wire form, or raises with the stamps in place |
| FastLinkPacket.WireLayout | src/protocol/fastlink/packet.py:65-76 | which bytes of an encoded packet hold which field, in network order, from "FLNK" to the payload, with length, clock and checksum stamped |
| FastLinkPacket.EncodeFailsExactly | src/protocol/fastlink/packet.py:65-76 | encoding succeeds exactly when every field fits, the millisecond clock included |
| FastLinkPacket.NoneSince1970 | src/protocol/fastlink/packet.py:113-119 | from 2^32 milliseconds after the epoch on, and at a clock of the year 2025, no packet whatever can be encoded |
| FastLinkPacket.HeaderRoundTrip | src/protocol/fastlink/packet.py:65-99 | header decoding undoes header encoding, whatever follows |
| FastLinkPacket.HeaderBack | src/protocol/fastlink/packet.py:78-99 | a decoded header re-encodes to its own bytes |
| FastLinkPacket.DecodesExactly | src/protocol/fastlink/packet.py:121-140 | an input decodes to a packet if and only if it begins with that packet's encoding and the checksum is right |
| FastLinkPacket.OutcomesExactly | src/protocol/fastlink/packet.py:78-140 | by the bytes of any input: when decoding raises (a type outside the enumeration), when it gives a packet, and that it is rejected otherwise |
| FastLinkPacket.PacketRoundTrip | src/protocol/fastlink/packet.py:113-140 | decode undoes encode with any bytes behind: every field as given but for the three stamps |
| FastLinkPacket.TruncationRejected | src/protocol/fastlink/packet.py:121-140 | every proper prefix of a packet is rejected |
| FastLinkPacket.BurstRejected | src/protocol/fastlink/packet.py:101-138 | payload damage inside 32 consecutive bits is rejected |
| FastLinkPacket.FourByteDamageRejected | src/protocol/fastlink/packet.py:101-138 | payload damage inside four consecutive bytes is rejected |
| VarInt.EncodeVarint | src/minecraft/protocol_adapter.py:159-170 | on a value that is not negative the encode loop ends and yields the specified form |
| VarInt.EncodingEndsExactly | src/minecraft/protocol_adapter.py:159-170 | the shifting loop ends if and only if the value is not negative |
| VarInt.DecodeVarint | src/minecraft/proxy_handler.py:80-101 | the decode loop is the specified decoder |
| VarInt.EncodeForm | src/minecraft/proxy_handler.py:66-77 | an encoding is continuation bytes and one final byte that spell the value in base 128 |
| VarInt.EncodeOf300 | src/minecraft/proxy_handler.py:66-77 | the encodings of 0, 127, 128 and 300, byte by byte |
| VarInt.EncodeShortest | src/minecraft/proxy_handler.py:66-77 | no terminated byte string that spells a value is shorter than its encoding, or as long and different |
| VarInt.PrefixFree | src/minecraft/protocol_adapter.py:159-170 | no encoding is the beginning of another |
| VarInt.RoundTripExactly | src/minecraft/protocol_adapter.py:202-223 | between any bytes, decoding gives the value and the next offset exactly below 2^35, and is rejected from there on |
| VarInt.DecodesExactly | src/minecraft/proxy_handler.py:80-101 | which inputs decode, to what, which are incomplete and which have five continuation bytes |
| VarInt.DecodedNotShorter | src/minecraft/proxy_handler.py:80-101 | whatever decodes to a value is at least as long as its encoding |
| MinecraftProxy.HandlePacket | src/minecraft/proxy_handler.py:309-324 | the handler loop is the left-to-right fold that a None ends, and that goes on behind an exception with the packet as it was left |
| MinecraftProxy.Forward | src/minecraft/proxy_handler.py:243-271 | the forward loop writes the re-encoded handled packets of the frames it could read |
| MinecraftProxy.DroppedExactly | src/minecraft/proxy_handler.py:309-324 | a packet is missing exactly when some handler returned None on what it was offered |
| MinecraftProxy.HandlersCompose | src/minecraft/proxy_handler.py:309-324 | running two handler lists in a row is running their concatenation |
| MinecraftProxy.FramesOfStream | src/minecraft/proxy_handler.py:247-258 | the loop reads back every frame of a stream of accepted frames and every byte |
| MinecraftProxy.CutExactly | src/minecraft/proxy_handler.py:247-269 | of a stream that ends after n bytes exactly the frames that are whole by then are read, nothing of the next |
| MinecraftProxy.BadFrames | src/minecraft/proxy_handler.py:250-257 | a length of two bytes, a length of 0 and a body without a whole packet id end the loop with an error, nothing being read |
| MinecraftProxy.TransparentExactly | src/minecraft/proxy_handler.py:52-63 | with handlers that change nothing the output equals the input byte for byte exactly when every packet id is minimally encoded |
| MinecraftProxy.ReturningHandlersKeep | src/minecraft/proxy_handler.py:309-324 | handlers that return their argument, or raise without changing it, leave every packet as it is |
| MinecraftProxy.FramesOfEncodings | src/minecraft/proxy_handler.py:247-258 | of any encoded packets the loop reads all up to the first whose body exceeds 127 bytes or whose id exceeds 35 bits |
| MinecraftProxy.RelayIsEncodeHandled | src/minecraft/proxy_handler.py:255-266 | the output is the concatenation of the encodings of the packets that the handlers let through |
| MinecraftProxy.ProxiesInARow | src/minecraft/proxy_handler.py:243-266 | two proxies in a row are one with both handler lists, as long as the second can read the first |
| ProtocolAdapter.MinecraftProtocolAdapter.BuildCache | src/minecraft/protocol_adapter.py:125-139 | every packet name gets the id of its newest version not above the adapter's |
| ProtocolAdapter.MinecraftProtocolAdapter.CreateHandshakePacket | src/minecraft/protocol_adapter.py:235-264 | the bytes grown piece by piece are the length-prefixed handshake, or an exception for a port outside 16 bits |
| ProtocolAdapter.MinecraftProtocolAdapter.CreateLoginStart | src/minecraft/protocol_adapter.py:295-303 | the length-prefixed login packet |
| ProtocolAdapter.ParseLoginSuccess | src/minecraft/protocol_adapter.py:305-316 | UUID and name, or None for an exception, bytes that are not UTF-8 included |
| ProtocolAdapter.PacketRoundTrip | src/minecraft/protocol_adapter.py:153-233 | the adapter's decoders in order read back every field of any packet it builds, consume all bytes, and the prefix counts the bytes after it |
| ProtocolAdapter.HandshakeRoundTrip | src/minecraft/protocol_adapter.py:235-264 | the same for the handshake, field by field |
| ProtocolAdapter.LoginStartRoundTrip | src/minecraft/protocol_adapter.py:295-303 | a login start gives back its packet id and the user name, and all bytes are used |
| ProtocolAdapter.IdsExactly | src/minecraft/protocol_adapter.py:58-139 | the id of every packet in every version: none below 340, then one that changes at 754, 758 and 763 |
| ProtocolAdapter.LoginSuccessOnPrefix | src/minecraft/protocol_adapter.py:305-316 | on any prefix of two encoded strings: a shortened name exactly when the cut falls in the name and between two characters, both strings on the whole, None otherwise |
| Utf8.CutExactly | src/minecraft/protocol_adapter.py:196-200 | a leading part of a text decodes if and only if it ends between two characters |
| Utf8.EncodedIsText | src/minecraft/protocol_adapter.py:153-157 | whatever characters a string holds, its encoding is accepted by the decoder |
| Utf8.TextExactly | src/minecraft/protocol_adapter.py:196-200 | the decoder accepts exactly the encodings of sequences of code points that are no surrogates |
| ModProtocol.ReadLoop | src/external/tcp_server.py:149-171 | both sides' read loops hand on the frames of the specification and stop for its reason, an exception out of a frame's handler included |
| ModProtocol.ReadFrameJava | mod/common/src/main/java/com/minecraftbc/external/ExternalClientManager.java:175-203 | one turn of the Java loop, with its signed length |
| ModProtocol.FramesRoundTrip | src/external/tcp_server.py:66-73 | either loop on the encodings of any frames hands on the same frames, up to the first of 65536 bytes and more, or up to and including the first whose handler throws; all, to the last byte, if there is neither |
| ModProtocol.CutExactly | src/external/tcp_server.py:149-173 | on a stream that ends after n bytes either loop hands on exactly the frames that are whole by then, up to the first that does not get through, uses just their bytes, and stops at the end of the stream, or at the length of a next frame over the limit |
| ModProtocol.OddFrames | mod/common/src/main/java/com/minecraftbc/external/ExternalClientManager.java:178-193 | what an unknown type, a length of 0 and a length from 2^31 up do to either loop |
| ModProtocol.BuildServerList | src/external/tcp_server.py:337-375 | the payload built with += is the specified one, or nothing is sent because a number does not fit |
| ModProtocol.HandleServerList | mod/common/src/main/java/com/minecraftbc/external/ExternalClientManager.java:232-259 | the reading loop with its moving cursor is the specified parser |
| ModProtocol.ServerListSeen | mod/common/src/main/java/com/minecraftbc/external/ExternalClientManager.java:232-259 | what Java reads from any list Python can send: numbers from 2^31 up turned negative, all else as sent |
| ModProtocol.SeenUnchangedExactly | mod/common/src/main/java/com/minecraftbc/external/ExternalClientManager.java:240-248 | the read list equals the sent one exactly when every number lies in [0, 2^31) |
| ModProtocol.DeliveredExactly | src/external/tcp_server.py:337-379 | the mod gets the very list exactly when the numbers lie in [0, 2^31) and the payload is below 65536 bytes |
| ModProtocol.DefaultLatencyStopsList | src/external/tcp_server.py:46 | one record with the default latency of -1, anywhere in the list, and nothing is delivered |
| ModMessages.SendHandshake | mod/common/src/main/java/com/minecraftbc/external/ExternalClientManager.java:122-131 | the handshake bytes the mod writes |
| ModMessages.ExternalTCPServer.HandleHandshake | src/external/tcp_server.py:209-251 | fills the connection in order, keeps what was read before a failure, registers it under its player's UUID only on success and then answers with the server list, if that can be packed |
| ModMessages.HandshakeRoundTrip | src/external/tcp_server.py:209-243 | whatever the connection held before, the server ends up with the mod's own values, a negative mod version wrapped |
| ModMessages.ConnectRequestRoundTrip | src/external/tcp_server.py:253-272 | the server reads the request the mod wrote, a negative port wrapped |
| ModMessages.BuildConnectResponse | src/external/tcp_server.py:304-335 | the response bytes, or nothing sent because a number does not fit |
| ModMessages.HandleConnectResponse | mod/common/src/main/java/com/minecraftbc/external/ExternalClientManager.java:261-278 | the values the mod reads in order |
| ModMessages.ResponseSeen | mod/common/src/main/java/com/minecraftbc/external/ExternalClientManager.java:261-278 | the mod reads the response that was sent, but for a port from 2^31 up |
| ModMessages.EmptyListEndsLoop | mod/common/src/main/java/com/minecraftbc/external/ExternalClientManager.java:175-203 | after an empty server-list packet the mod's loop hands on nothing more, whatever follows |
| ModMessages.ResponseHandled | mod/common/src/main/java/com/minecraftbc/external/ExternalClientManager.java:261-278 | a response the server sends is read through without an exception |
| ModReading.ServerListExactly | mod/common/src/main/java/com/minecraftbc/external/ExternalClientManager.java:232-259 | on any payload the mod reads a list exactly if the payload begins with that list |
| ModReading.ServerListCut | mod/common/src/main/java/com/minecraftbc/external/ExternalClientManager.java:232-259 | of a list that was cut anywhere it reads nothing |
| ModReading.ResponseExactly | mod/common/src/main/java/com/minecraftbc/external/ExternalClientManager.java:261-278 | on any payload the mod reads a response exactly if the payload begins with it |
| ModReading.HandledExactly | mod/common/src/main/java/com/minecraftbc/external/ExternalClientManager.java:204-226 | which packets the mod gets through without an exception, by the bytes of their payload |
| ModReading.ConnectRequestExactly | src/external/tcp_server.py:253-272 | on any payload the server reads a connect request exactly if the payload begins with it and both strings are text |
| ModReading.HandshakeOnPrefix | src/external/tcp_server.py:209-243 | a handshake cut inside its name registers the player under the shorter name, unless the cut falls inside a character; any other cut fails, and the fields keep what was read, a cut string included |
| WireExamples.ModFrame | src/external/tcp_server.py:66-73 | a frame, byte by byte |
| WireExamples.ServerList | src/external/tcp_server.py:345-379 | a server list of one record, byte by byte |
| WireExamples.ModHandshake | mod/common/src/main/java/com/minecraftbc/external/ExternalClientManager.java:122-131 | a handshake, byte by byte |
| WireExamples.ConnectRequest | src/external/tcp_server.py:253-272 | a connect request, byte by byte |
| WireExamples.ConnectResponse | src/external/tcp_server.py:304-335 | a connect response, byte by byte |
| WireExamples.BridgePacket | src/minecraft/tcp_bridge.py:60-67 | a bridge packet, byte by byte |
| WireExamples.MinecraftHandshake | src/minecraft/protocol_adapter.py:235-264 | a Minecraft handshake, byte by byte |
| WireExamples.LoginStart | src/minecraft/protocol_adapter.py:295-303 | a login start, byte by byte |
| WireExamples.ProxyPacket | src/minecraft/proxy_handler.py:52-63 | a relayed packet, byte by byte |
| TcpBridge.Encode | src/minecraft/tcp_bridge.py:60-67 | the header grown with += and the data, or an exception exactly when a field does not fit |
| TcpBridge.Layout | src/minecraft/tcp_bridge.py:60-67 | which packets have an encoding, and which bytes of it hold which field, numbers in network order |
| TcpBridge.Decode | src/minecraft/tcp_bridge.py:69-89 | the decoder with its moving offset is the specified one, and raises on a connection id that is not UTF-8 |
| TcpBridge.PacketRoundTrip | src/minecraft/tcp_bridge.py:60-89 | decode undoes encode, whatever follows |
| TcpBridge.DecodesExactly | src/minecraft/tcp_bridge.py:69-89 | which inputs decode, and to what: the header has to be all there and its id text; the payload is as much of the announced one as there is |
| TcpBridge.CutExactly | src/minecraft/tcp_bridge.py:69-89 | a prefix ending in the header raises, one ending in the payload gives the packet with that much payload |
| TcpBridge.TCPBridge.ForwardToP2P | src/minecraft/tcp_bridge.py:302-345 | success exactly for a known connection, an encodable packet and an accepted send; only then the counters move |
| TcpBridge.AccountOverRuns | src/minecraft/tcp_bridge.py:313-341 | accepted packets carry the connection's id, the data flag and the numbers 0, 1, 2, ..., never more than 2^32 of them, and their payload lengths sum to bytes_sent |
| TcpBridge.StreamExactly | src/minecraft/tcp_bridge.py:313-341 | what went out under any id is the first chunks the connector took: all of them up to 2^32, none under an id of 256 bytes and more |
| TcpBridge.NothingLostExactly | src/minecraft/tcp_bridge.py:313-341 | every taken chunk went out if and only if there was none, or the id fits and there were at most 2^32 |
| HolePunch.PunchAttempt.PredictPorts | src/protocol/fastlink/p2p.py:177-190 | the loop yields the specified ports |
| HolePunch.PredictionAt | src/protocol/fastlink/p2p.py:183-188 | the i-th prediction as a number of the base port, the increment and the HMAC word |
| HolePunch.IncrementsAre | src/protocol/fastlink/p2p.py:71-95 | the increment of every ISP, and 100 attempts |
| HolePunch.PunchPacket | src/protocol/fastlink/p2p.py:289-305 | the packet of an attempt: its version, its type, the attempt's number and its text |
| HolePunch.DistinctExactly | src/protocol/fastlink/p2p.py:177-190 | predictions differ pairwise under every HMAC output exactly when there is at most one attempt or max_attempts * increment <= 65535 |
| HolePunch.PortRange | src/protocol/fastlink/p2p.py:187 | every prediction lies in [1024, 66558], and each end is the first prediction for some base port |
| HolePunch.UsableExactly | src/protocol/fastlink/p2p.py:187 | predictions are real ports under every HMAC output exactly when base % 65535 + max_attempts * increment <= 64512; under the documented modulus they always would be |
| HolePunch.RepositoryPortsDistinct | src/protocol/fastlink/p2p.py:71-92 | with the repository's increments and 100 attempts no port repeats |
| HolePunch.PunchAttempt.GetNextPort | src/protocol/fastlink/p2p.py:192-200 | hands out the predictions in order and then None for good, never beyond max_attempts |
| HolePunch.HolePuncher.StartPunch | src/protocol/fastlink/p2p.py:239-258 | a fresh attempt, everything else as it was |
| HolePunch.HolePuncher.HandlePunchResponse | src/protocol/fastlink/p2p.py:337-359 | the first reply to an attempt counts, moves its target and runs the callbacks once; any other does nothing |
| HolePunch.HolePuncher.PunchLoop | src/protocol/fastlink/p2p.py:260-282 | the loop ends as specified, having sent to the predictions in order |
| HolePunch.PunchesExactly | src/protocol/fastlink/p2p.py:274-305 | the loop ends with attempt n exactly if all packets before it went out unanswered and it cannot be encoded (an exception), is answered, or is the last |
| HolePunch.ClocksDecide | src/protocol/fastlink/p2p.py:276-305 | it raises if and only if some clock reading leaves 32 bits before any reply is in; if the first does, the first attempt is the end and nothing is sent |
| HolePunch.SuccessesCounted | src/protocol/fastlink/p2p.py:342-344 | punch_successes is the number of attempts marked successful |
| PeerTable.StepExactly | src/protocol/fastlink/p2p.py:454-479 | that every listed peer can be sent to survives a step if and only if the step does not connect an unconnected record for an id still marked |
| PeerTable.IndexExactly | src/protocol/fastlink/p2p.py:553-567 | the same over every run |
| PeerTable.StepKeyed | src/protocol/fastlink/p2p.py:454-664 | every step leaves every peer's record under its own id, and only a connect can make a listed peer unsendable |
| PeerTable.ListedButUnreachable | src/protocol/fastlink/p2p.py:454-458 | a run after which a peer is listed as connected but cannot be sent to |
| PeerTable.DisconnectExactly | src/protocol/fastlink/p2p.py:600-614 | a disconnect packet ends the first peer in table order whose external address it came from, tells of it and ends no other; without one it does nothing |
| PeerTable.CheckExactly | src/protocol/fastlink/p2p.py:650-664 | checking some peers drops those of them that timed out and nobody else, and tells of each once, in order |
| PeerTable.AfterStaleCheck | src/protocol/fastlink/p2p.py:650-664 | after a stale check exactly the peers seen within 15 seconds are still connected |
| PeerTable.HeartbeatExactly | src/protocol/fastlink/p2p.py:569-580 | a heartbeat sets its sender's time and latency, keeps it from timing out for 15 seconds and does nothing for anybody else |
| PeerTable.PunchReplyExactly | src/protocol/fastlink/p2p.py:346-350 | a punch reply moves and marks the record it was started with and nothing else, so the peers whose entry is that record can be sent to |
| PeerTable.HandshakeExactly | src/protocol/fastlink/p2p.py:553-567 | a handshake of a known peer marks it in both places and renews its time, and nothing else changes; of an unknown peer nothing does |
| PeerTable.HeartbeatPacket | src/protocol/fastlink/p2p.py:636-648 | the heartbeat to a peer: its version, its type and its text |
| PeerTable.RoundExactly | src/protocol/fastlink/p2p.py:616-634 | a turn of the heartbeat loop leaves nobody who timed out exactly if there was nobody, or the heartbeat of every connected peer can be encoded |
| PeerTable.NobodyTimesOut | src/protocol/fastlink/p2p.py:616-648 | over every run in which no clock fits 32 bits, a connected peer stays connected throughout exactly if no disconnect packet ends it and no unconnected record replaces it, however long it is silent |
| PeerTable.LossesTold | src/protocol/fastlink/p2p.py:600-664 | over every step a peer stops being sendable exactly when the disconnect handlers hear of it, once, or its record is replaced by an unconnected one |
| PeerTable.P2PConnection.Connect | src/protocol/fastlink/p2p.py:454-458 | the record replaces the one under its id, the index stays |
| PeerTable.P2PConnection.OnReply | src/protocol/fastlink/p2p.py:346-350 | a punch reply moves and marks the shared record, and the index is not touched |
| PeerTable.P2PConnection.HandleHandshake | src/protocol/fastlink/p2p.py:553-567 | a known peer is marked in both places |
| PeerTable.P2PConnection.HandleHeartbeat | src/protocol/fastlink/p2p.py:569-580 | a known peer's time and latency move, nothing else |
| PeerTable.P2PConnection.HandleDisconnect | src/protocol/fastlink/p2p.py:600-614 | the search in table order, the two flags and the notice are the specified ones |
| PeerTable.P2PConnection.CheckStalePeers | src/protocol/fastlink/p2p.py:650-664 | the loop over a copy of the table is the specified check, notices included |
| PeerTable.P2PConnection.HeartbeatRound | src/protocol/fastlink/p2p.py:616-648 | the heartbeats to the connected peers in order, then the stale check, unless one of them raises |
| PeerTable.P2PConnection.Send | src/protocol/fastlink/p2p.py:680-683 | the guard of send |
| PeerTable.P2PConnection.GetConnectedPeers | src/protocol/fastlink/p2p.py:713-715 | the marked peers, every one of which passes the guard while the index is sound |
| BirthdayPunch.PredictPortRange | src/nat/birthday_punch.py:150-183 | a strictly increasing list of exactly the valid candidates, at most ten |
| BirthdayPunch.CandidatesExactly | src/nat/birthday_punch.py:150-183 | the candidates in plain numbers: up to three increments around the base moved by one increment for every whole 200 ms, and the base moved by none, one or two |
| BirthdayPunch.IncrementsAre | src/nat/birthday_punch.py:53-84 | the increment of every ISP |
| BirthdayPunch.BaseTried | src/nat/birthday_punch.py:279 | for every time difference from 0 up, a valid base port is among the first four predictions, so it is tried |
| BirthdayPunch.CommonPortTried | src/nat/birthday_punch.py:173-183 | for a simultaneous start base + 2 * increment is among the five ports tried exactly when it is at most 65535 and base is below 1024 + 3 * increment |
| BirthdayPunch.FiveTried | src/nat/birthday_punch.py:173-183 | away from the ends of the range a simultaneous start predicts seven ports, in this order, of which the two highest are never tried |
| BirthdayPunch.AttemptsExactly | src/nat/birthday_punch.py:276-297 | the recorded attempts are exactly the tried ports of each round whose send went out, under the round's number |
| BirthdayPunch.Puncher.CoordinatedPunch | src/nat/birthday_punch.py:259-316 | each round tries the same first five predictions and records the sends that go out; the rounds end with the first acknowledgement or the timeout |
| Signaling.WebRTCSignaling.ProcessMessage | src/protocol/webrtc/signaling.py:162-184 | a message without sender changes nothing and is heard by nobody, one with a target is queued for it, and the handlers hear it either way |
| Signaling.WebRTCSignaling.SendMessage | src/protocol/webrtc/signaling.py:208-223 | a local message is stamped and queued |
| Signaling.WebRTCSignaling.GetPendingMessages | src/protocol/webrtc/signaling.py:247-249 | hands out the whole queue and empties it |
| Signaling.Conservation | src/protocol/webrtc/signaling.py:162-249 | for every interleaving and every target, what was handed out followed by what waits is what was forwarded, in order |
| Signaling.ConnectedExactly | src/protocol/webrtc/signaling.py:168-175 | a node counts as connected exactly when some message named it as sender |
| Signaling.HeardExactly | src/protocol/webrtc/signaling.py:168-184 | the handlers hear every incoming message with a sender once, in order, and nothing else; the connected nodes are those they heard of |
| Mapping.MappingManager.LoadMappings | src/protocol/mnmcp/proxy.py:373-418 | replaces one game's tables by those of the files that exist, leaves other games' tables alone, and raises exactly if some item entry has both ids, neither of them empty |
| Mapping.ReadEntries | src/protocol/mnmcp/proxy.py:385-390 | the loop builds both tables side by side |
| Mapping.LookupsExactly | src/protocol/mnmcp/proxy.py:420-438 | after any sequence of loads, what an id translates to in either direction is what the last usable entry for it says in the last file loaded for that game, or nothing |
| Mapping.TranslatesExactly | src/protocol/mnmcp/proxy.py:385-438 | after any sequence of loads, in either direction: an id translates exactly if the last file of that game and kind has an entry that pairs it with a second id, neither empty, and no later entry pairs it with one that is given and not empty |
| Mapping.LookupRoundTripExactly | src/protocol/mnmcp/proxy.py:420-438 | after any sequence of loads, the two lookups in a row give every known id back exactly when the last file passes the entry condition below |
| Mapping.ItemsNeverBack | src/protocol/mnmcp/proxy.py:406-448 | after any sequence of loads no item translates back and at most one per game translates at all |
| Mapping.ItemsExactly | src/protocol/mnmcp/proxy.py:406-443 | the one item of a game that translates is the first entry with both ids in the last item file loaded for it |
| Mapping.LastEntryWins | src/protocol/mnmcp/proxy.py:385-390 | the last usable entry for an id decides its translation, in either table, and nothing else is in them |
| Mapping.GenericRoundTripExactly | src/protocol/mnmcp/proxy.py:420-428 | generic to game and back is the identity exactly when every entry last for its generic id is last for its game id |
| Mapping.GameRoundTripExactly | src/protocol/mnmcp/proxy.py:420-428 | game to generic and back is the identity exactly when every entry last for its game id is last for its generic id |
| Mapping.DistinctIdsRoundTrip | src/protocol/mnmcp/proxy.py:420-438 | pairwise distinct ids on one side are enough for one direction |

## Left out

- Sockets, tasks, locks and logging: a handler is one atomic step; of runs in which handlers interleave at their waits only one other step during an eviction is modelled (RoomWaits), and not the client's own authentication, leaving or closing there.
- JSON, HMAC, Ed25519 and X25519: library code. Requests arrive decoded, and of UTF-8 only which bytes are text is modelled; the HMAC is any function from indices to numbers.
- Room server: `last_active`, `latency_ms`, room names and descriptions, game settings, pinned messages, message timestamps, routing metrics; room and node ids are taken as unused when generated.
- RoomServer.FastLinkServer.HandleAuth: does not carry the table of reputations; nothing in the repository applies a penalty, so every score in it is the first one and its check refuses nobody.
- The answer of a join lists the members by id; names, roles and platforms of the listed members are not carried.
- RoomServer.FastLinkServer.SendResponse: does not model the write to the socket, only that the response was issued and numbered.
- Reputation.ScoreOverRuns: rounding of floats is not modelled, so the bounds are those of exact arithmetic.
- Reputation.LatencyOverRuns: rounding of floats is not modelled.
- VarInt.EncodeVarint: takes no negative value, because the loop does not end on one (VarInt.EncodingEndsExactly).
- MinecraftProxy.HandlePacket: handlers are functions of direction and packet; what a handler remembers between packets is not modelled.
- MinecraftProxy.Forward: the running flag is not modelled, and the two directions share nothing.
- A packet header with a magic of its own is not modelled; the default one is.
- ModProtocol.FramesRoundTrip: leaves out frames of 2^31 bytes and more, which neither side can announce to the other.
- The icon of a server record is never sent and not modelled; the mod's connection life cycle, which sends its handshake before it counts as connected, is modelled as bytes and framing only.
- HolePunch.HolePuncher.PunchLoop: does not count sent packets, because that depends on the socket, and assumes that there is a socket and that no other attempt to the same record succeeds meanwhile and moves its port.
- PeerTable: who a data packet is attributed to, and the handlers that are told of connects.
- Signaling.WebRTCSignaling.SendMessage: messages are values; a caller or handler that changes the dictionary afterwards would change what is queued.
- Of `MappingManager` the fallback table; a mapping file that cannot be parsed.
- `TCPProxyTunnel` splits at the first colon although client ids contain one, so the delivery it is meant for does not hold; end-to-end delivery of `TCPBridge` is left out because its transport table is never filled.
- `PacketFactory.create_packet` on raw bytes has no result to model.
- Version managers, updater, discovery, configuration, command line, mixins and the WebRTC stubs would only add plumbing.
