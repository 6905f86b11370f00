# SkyTier core in Dafny

SkyTier is a peer-to-peer virtual network written in Go. Each node runs a TUN device, listens for its peers
over TCP (and a second server misnamed UDP), and exchanges framed packets with them. This project models
the core of SkyTier and proves properties of the model:

- **The packet frame** (`pkg/packet/packet.go`). A 4-byte header holds the version in the high nibble, the
  type tag and the big-endian payload length. The payload bytes follow. Encode and Decode are methods of a
  `Packet` class, proved against the functions `EncodeSpec` and `DecodeSpec`.
- **The payloads** of `pkg/packet/payload.go` and `pkg/packet/payload/payload.go`: string payloads, handshake
  replies, and the 38-byte handshake record (a 32-byte ID, a DHCP byte, an IPv4 address and a prefix
  length). The record is described once, in `HandshakeWire`. The peer package's own copy of the record is
  `internal/peer/handshake.go`.
- **`net.ParseCIDR` and `net.ParseIP`** for the dotted-quad IPv4 forms the code produces and consumes
  (`Cidr`). **`pkg/utils/types.go`**: the 5-byte `IPMask` and its text.
- **Peers** (`internal/peer`):
  - the handshake state machine of a peer, with the initiator side of the handshake;
  - the manager's dispatch of incoming packets and the responder side of the handshake;
  - the dialling loop of `NewManager` and `Manager.Handshake`.

  A connection is a `Writer`, an outbox of frames plus a script of which writes fail.
- **The router** (`internal/router/router.go`): one action per incoming packet.
- **The two servers** (`internal/core/tcp_server.go` and `udp_server.go`):
  - the accept loop with its back-off of 5 ms doubling to 1 s;
  - the read–decode–dispatch loop of a connection;
  - the buffer pool.

  All three are proved against functions of the events the listener and the connection deliver
  (`ServerLoops`).
- **The functional options** of `internal/core/config.go` and `internal/engine/config.go`.

Go strings and byte slices are `seq<byte>`. Go errors are the `Errors.Error` datatype: `errors.Join` is
`Join`, `%w` wrapping is a constructor that carries its cause, and `errors.Is` is `Is`. A panic is `None`,
or the `Panicked` outcome of `HandlePacket`. The one exception is a call on a nil payload in `Packet.Encode`:
it is the error `NilPayload`, so `EncodeSpec` gives `Failure(NilPayload)`.

## Model

| member | source | states |
|---|---|---|
| Bytes.BigEndian16 | pkg/packet/packet.go:58 | the two length bytes of the header read back as the length written |
| Bytes.ReadBigEndian16 | pkg/packet/packet.go:91 | a big-endian uint16 read from two bytes is below 65536 |
| Bytes.BigEndian16OfRead | pkg/packet/packet.go:58-91 | writing the value read from two bytes gives the same two bytes (the other direction of the round trip) |
| Bytes.Decimal | pkg/utils/types.go:30 | `%d` of a natural number: non-empty, all digits, no leading zero, at most 3 digits below 256 |
| Bytes.ParseDecimalOfDecimal | pkg/utils/types.go:30 | the decimal text of n reads back as n |
| Bytes.DecimalHasNoSeparator | pkg/utils/types.go:30 | decimal text never contains '.', '/' or any other non-digit, so the fields of "a.b.c.d/m" split cleanly |
| Bytes.Zeros | pkg/packet/payload.go:34 | n zero bytes |
| Bytes.CopyTo32 | internal/peer/peer.go:43-44 | `copy(id[:], ID)` into a [32]byte: the first 32 bytes of the ID, padded with NULs |
| Bytes.TrimLeadingNul | internal/peer/handle.go:50 | the leading half of `bytes.Trim(x, "\x00")`: a suffix of x, only NULs removed, not starting with NUL |
| Bytes.TrimTrailingNul | internal/peer/handle.go:50 | the trailing half of the trim: a prefix of x, only NULs removed, not ending with NUL |
| Bytes.TrimNulIsNulFreeSlice | internal/peer/manager.go:63 | the trimmed ID is a slice of the field, bounded by NULs on both sides, and neither starts nor ends with NUL |
| Bytes.TrimNulBounds | internal/peer/manager.go:63 | the bounds of that slice, with only NULs outside them |
| Bytes.TrimTrailingOfPadded | internal/peer/handle.go:50 | trailing NUL padding added to an ID that does not end in NUL is exactly what the trim removes |
| Bytes.TrimLeadingOfPadded | internal/peer/handle.go:50 | an ID that does not start with NUL loses nothing at its head |
| Bytes.TrimNulOfCopyTo32 | internal/peer/handle.go:50 | an ID of at most 32 bytes, with no NUL at either end, survives the copy into [32]byte and the trim |
| Bytes.AllNulTrimsToEmpty | internal/peer/manager.go:63 | a zero ID field trims to the empty ID |
| Cidr.FirstIndex | pkg/packet/payload.go:68 | the first position of a byte, and nothing before it is that byte |
| Cidr.FirstIndexAt | pkg/packet/payload.go:68 | where a byte is found after a prefix that lacks it |
| Cidr.Split | pkg/packet/payload.go:68 | splitting always gives at least one field (its partner SplitJoin shows it inverts joining) |
| Cidr.SplitAt | pkg/packet/payload.go:68 | splitting text with no separator before a separator gives that text first |
| Cidr.ParseOctet | pkg/packet/payload.go:68 | an accepted dotted-quad field is exactly the decimal text of its value, so it has no leading zero and is at most 255 |
| Cidr.DecimalOfParse | pkg/packet/payload.go:68 | an accepted octet is the decimal text of its value |
| Cidr.ParseDecimalPositive | pkg/packet/payload.go:68 | non-empty digit text that does not start with '0' is positive |
| Cidr.ParseOctetOfDecimal | pkg/packet/payload.go:68 | the decimal text of every value below 256 is accepted as that octet |
| Cidr.ParseIPv4 | pkg/packet/payload.go:68 | an accepted IPv4 address has four octets |
| Cidr.FamilyMarkerSkipsDigits | pkg/packet/payload.go:68 | leading digits do not decide the family: the first '.' or ':' after them does |
| Cidr.ParseAddr | pkg/packet/payload.go:68 | an address read as IPv4 has four octets |
| Cidr.ParsePrefix | pkg/packet/payload.go:68 | an accepted prefix length is at most the address width |
| Cidr.ParseCIDR | pkg/packet/payload.go:68-76 | an IPv4 network from `net.ParseCIDR` has four octets and a prefix of at most 32 |
| Cidr.Dotted | pkg/utils/types.go:30 | the dotted text of four octets holds only digits and dots |
| Cidr.DigitsAndDotsExclude | pkg/utils/types.go:30 | text of digits and dots contains no other byte, such as '/' or ':' |
| Cidr.SplitNone | pkg/packet/payload.go:68 | text without the separator is a single field |
| Cidr.SplitJoin | pkg/packet/payload.go:68 | fields without the separator, joined by it, split back into the same fields |
| Cidr.SplitDotted | pkg/utils/types.go:30 | dotted text splits at '.' into the decimal texts of its octets |
| Cidr.ParseIPv4OfDotted | pkg/utils/types.go:30 | dotted text parses back to its four octets |
| Cidr.ParseIPv4OfFields | pkg/utils/types.go:30 | four fields that are the decimal texts of octets parse to those octets |
| Cidr.ParseIPOfDotted | pkg/utils/types.go:30 | `net.ParseIP` of dotted text is that IPv4 address |
| Cidr.ParseCIDROfFormat | pkg/packet/payload.go:122-126 | the "a.b.c.d/m" text `IPNet.String` gives parses back to the address and m when m ≤ 32, and is an error otherwise |
| Cidr.ParseCIDRAtSlash | pkg/packet/payload.go:68 | the address before the first '/' decides the address, and the text after it the prefix |
| Cidr.ParsePrefixOfDecimal | pkg/packet/payload.go:68 | the decimal text of n is a prefix exactly when n is at most the width |
| Cidr.ParseCIDRNormalises | pkg/packet/payload.go:122-126 | a CIDR that parses has canonical text that parses to the same address and prefix |
| PacketTypes.Code | pkg/packet/consts.go:11-28 | the tags are numbered 0..8 in declaration order; the two peer-only handshake tags have no byte |
| PacketTypes.TagOf | pkg/packet/consts.go:11-28 | the tag a byte names is the tag whose code that byte is |
| PacketTypes.TagOfCode | pkg/packet/consts.go:11-28 | TagOf and Code are inverse, and exactly the bytes 0..8 name a tag |
| HandshakeWire.Write | pkg/packet/payload.go:54-89 | the record (ID, DHCP byte, address, prefix) is written as exactly 38 bytes |
| HandshakeWire.ReadOfWrite | pkg/packet/payload.go:91-129 | reading what was written gives the record back, whatever bytes follow |
| HandshakeWire.ReadIgnoresTrailing | pkg/packet/payload.go:91-118 | only the first 38 bytes are read |
| PacketPayload.Marshal | pkg/packet/payload.go:54-89 | MarshalBinary succeeds exactly for an IPv4 CIDR, writing that address and prefix; invalid CIDR text and IPv6 get their own errors |
| PacketPayload.Unmarshal | pkg/packet/payload.go:91-129 | short input changes nothing and says "too small"; otherwise ID and DHCP are overwritten; a prefix above 32 fails with the old CIDR kept; otherwise the CIDR becomes "a.b.c.d/m" |
| PacketPayload.UnmarshalCidrParses | pkg/packet/payload.go:122-126 | the CIDR text a successful unmarshal stores parses back to the received address and prefix |
| PacketPayload.Encode | pkg/packet/payload.go:20-52 | an encoding is as long as Length() says |
| PacketPayload.Decode | pkg/packet/payload.go:24-48 | decoding keeps the payload's kind |
| PacketPayload.UnmarshalOfMarshal | pkg/packet/payload.go:54-129 | marshalled bytes, with anything after them, unmarshal without error to the same ID and DHCP flag and to CIDR text that marshals to the same bytes |
| PacketPayload.UnmarshalOfMarshalCanonical | pkg/packet/payload.go:54-129 | a payload whose CIDR is already canonical comes back unchanged |
| PacketPayload.DecodeOfEncode | pkg/packet/payload.go:20-48 | Decode(Encode(p)) succeeds and re-encodes to the same bytes, and gives p back for string and reply payloads |
| PacketPayload.PayloadHandshake.Value | pkg/packet/payload.go:33-40 | the fields of a PayloadHandshake form a handshake payload |
| PacketPayload.PayloadHandshake.constructor | pkg/packet/payload.go:105 | `new(PayloadHandshake)`: zero ID, false, empty CIDR |
| PacketPayload.PayloadHandshake.MarshalBinary | pkg/packet/payload.go:54-89 | the buffer-writing method produces exactly Marshal |
| PacketPayload.PayloadHandshake.UnmarshalBinary | pkg/packet/payload.go:91-129 | the reader-based method leaves the fields and error of Unmarshal |
| Payload.Marshal | pkg/packet/payload/payload.go:52-87 | the init payload's bytes are its ID, DHCP byte, address and prefix |
| Payload.MarshalFollowsParseCIDR | pkg/packet/payload/payload.go:66-81 | going through `IPMask.String` and `net.ParseCIDR` fails exactly for a prefix above 32 ("invalid VirtualIP"), and the mask-size check never fires |
| Payload.Unmarshal | pkg/packet/payload/payload.go:89-116 | short data changes nothing and says "data too short: n"; otherwise all fields are overwritten before a prefix above 32 is reported |
| Payload.Encode | pkg/packet/payload/payload.go:40-50 | an encoding is as long as Length() says |
| Payload.UnmarshalOfMarshal | pkg/packet/payload/payload.go:52-116 | an init payload with a valid prefix round-trips exactly |
| Payload.TextRoundTrip | pkg/packet/payload/payload.go:17-30 | a string payload round-trips, and its length is that of its bytes |
| Payload.ReplyCarriesOnlyHello | pkg/packet/payload/payload.go:118-134 | a reply transmits its greeting only; the receiver keeps its own virtual IP |
| Payload.HandshakeInitPayload.Value | pkg/packet/payload/payload.go:32-38 | the fields form an init payload |
| Payload.HandshakeInitPayload.constructor | pkg/packet/payload/payload.go:32-38 | a payload holding the given fields |
| Payload.HandshakeInitPayload.MarshalBinary | pkg/packet/payload/payload.go:52-87 | the buffer-writing method produces exactly Marshal |
| Payload.HandshakeInitPayload.UnmarshalBinary | pkg/packet/payload/payload.go:89-116 | the reader-based method leaves the fields and error of Unmarshal |
| PeerHandshake.Marshal | internal/peer/handshake.go:31-66 | succeeds exactly for an IPv4 CIDR, writing its address and prefix; every failure is joined with ErrPacketEncode |
| PeerHandshake.MarshalAgrees | internal/peer/handshake.go:31-66 | the peer package's marshal gives the packet package's bytes, and fails on the same inputs |
| PeerHandshake.UnmarshalErrors | internal/peer/handshake.go:68-106 | short input fails with the decode error and a prefix above 32 with "invalid mask length" |
| PeerHandshake.SampleRecordDecodes | internal/peer/handshake_test.go:81-148 | the test's record decodes to "helloworld", true, 192.168.1.1/24; with prefix 33 it fails |
| PeerHandshake.PayloadHandshake.Value | internal/peer/handshake.go:12-19 | the fields form a handshake payload |
| PeerHandshake.PayloadHandshake.constructor | internal/peer/handshake.go:25-29 | the zero value |
| PeerHandshake.PayloadHandshake.MarshalBinary | internal/peer/handshake.go:31-66 | the method produces exactly Marshal |
| PeerHandshake.PayloadHandshake.UnmarshalBinary | internal/peer/handshake.go:68-106 | the method leaves the fields and error of the packet package's Unmarshal |
| PeerHandshake.Decode | internal/peer/handshake.go:25-29 | a fresh payload filled by UnmarshalBinary, returned together with its error |
| PacketCodec.Header | pkg/packet/packet.go:49-60 | four bytes: the version's low nibble in the high nibble, a zero low nibble, the type, and the length big-endian |
| PacketCodec.ShiftedNibble | pkg/packet/packet.go:50 | the `Version<<4` byte keeps the version's low nibble, and its own low nibble is zero |
| PacketCodec.EncodeSpec | pkg/packet/packet.go:42-71 | too large exactly when the payload exceeds 0xFFFF-8; success exactly when the payload fits and encodes, giving the header and payload bytes |
| PacketCodec.FreshPayload | pkg/packet/packet.go:100-112 | a nil payload is filled in only for Handshake (3) and HandshakeReply (4) |
| PacketCodec.DecodeSpec | pkg/packet/packet.go:73-118 | fewer than 4 bytes change nothing; otherwise the header is overwritten; a too-long length is "incomplete"; for a complete frame a nil slot with a tag other than 3 or 4 is "unknown packet type", and otherwise the payload is what the slot's decoder makes of exactly the declared bytes, with its error joined to ErrPacketDecode; success leaves a payload, which for a nil slot means type 3 or 4 |
| PacketCodec.Slot | pkg/packet/packet.go:100-112 | the payload Decode fills: the packet's own one, or for a nil one a payload exactly for tags 3 and 4 |
| PacketCodec.DecodePayload | pkg/packet/packet.go:121-133 | only the Handshake tag is known, and any other tag is "unknown packet type"; for tag 3 the result is what a new handshake payload makes of the bytes, its error joined to ErrPacketDecode |
| PacketCodec.DecodeOfEncode | pkg/packet/packet.go:42-118 | decoding an encoded packet succeeds and restores version, type, length and the payload's bytes |
| PacketCodec.DecodeOfFrame | pkg/packet/packet.go:73-118 | a well-formed frame decodes to its header fields and its payload |
| PacketCodec.DecodeIgnoresTrailing | pkg/packet/packet.go:95-113 | bytes after the declared payload are ignored |
| PacketCodec.DecodeOfEncodeWithTrailing | pkg/packet/packet.go:42-118 | an encoded frame followed by anything decodes as the frame alone |
| PacketCodec.EncodeSample | pkg/packet/packet_test.go:75-99 | the test's packet encodes to 0x10 0x03 0x00 0x02 0x01 0x02 |
| PacketCodec.EncodeTooLargeSample | pkg/packet/packet_test.go:101-117 | a payload of 0xFFFF-7 bytes is refused as too large |
| PacketCodec.DecodeSamples | pkg/packet/packet_test.go:119-207 | the decode tests: success, too small, incomplete, unknown type, payload error |
| PacketCodec.DecodePayloadSamples | pkg/packet/packet_test.go:209-229 | a record decodes under Handshake, and 0xFF is an unknown type |
| PacketCodec.Packet.Empty | pkg/packet/packet.go:15-20 | `&Packet{}`: all fields zero and no payload |
| PacketCodec.Packet.NewPacket | pkg/packet/packet.go:22-29 | the protocol version, the type, and the payload's length cut to 16 bits |
| PacketCodec.Packet.WithPayload | pkg/packet/packet.go:32-39 | a new packet keeps this one's version and type and takes the payload and its length |
| PacketCodec.Packet.Encode | pkg/packet/packet.go:42-71 | the method's result is EncodeSpec of the packet |
| PacketCodec.Packet.Decode | pkg/packet/packet.go:73-118 | the new fields and the error are DecodeSpec of the old fields |
| PeerState.StateCode | internal/peer/peer.go:11-16 | the four states are 0..3 |
| PeerState.StateCodeInjective | internal/peer/peer.go:11-16 | distinct states have distinct codes |
| PeerState.EncodeError | internal/peer/peer.go:46-58 | a payload that does not encode always gives an error before anything is written |
| PeerState.WriteResult | internal/peer/peer.go:46-58 | an unencodable packet fails without using the connection; otherwise the next scripted outcome decides |
| PeerState.Writer.constructor | internal/peer/peer.go:23-31 | a writer to a remote address with an empty outbox |
| PeerState.Writer.Write | internal/peer/peer.go:46-58 | the frame joins the outbox exactly when the write succeeds |
| PeerState.HandshakeSentIffInitWritten | internal/peer/peer.go:42-58 | HANDSHAKE_SENT exactly when the init packet went out; otherwise nothing is sent and the state stays |
| PeerState.ReadPacketOnce | pkg/packet/rw.go:110-124 | a failed read is ErrPacketIncomplete joined to the read error; otherwise the buffer is decoded into a fresh packet, a decode error is joined to ErrPacketDecode, and a decoded packet holds a handshake payload exactly for tag 3 and a reply exactly for tag 4 |
| PeerState.AsWrittenNeverFinalizes | internal/peer/peer.go:60-67 | as written, the initiator never writes its finalize packet and always returns an error; a packet read after the init went out is "invalid payload type" |
| PeerState.AsWrittenRejectsReply | internal/peer/peer.go:60-67 | a well-formed reply frame is read as a reply, rejected as written, and answered with finalize when corrected |
| PeerState.ReplyFinalizes | internal/peer/peer.go:60-77 | corrected: a reply read after the init went out leads to [init, finalize] and no error when both writes succeed |
| PeerState.FinalizeOnlyAfterReply | internal/peer/peer.go:60-77 | finalize is written only after a handshake reply, at most once, after init; without it an error is reported |
| PeerState.InvalidPrefixNeverSent | internal/peer/peer.go:46-58 | an initiator whose prefix is above 32 sends nothing and stays in its state |
| PeerState.InitFrameCarriesId | internal/peer/peer.go:43-50 | the init packet carries the ID cut and padded to 32 bytes, DHCP set and the node's virtual IP |
| PeerState.Peer.constructor | internal/peer/peer.go:23-31 | a new peer starts in INIT |
| PeerState.Peer.Handshake | internal/peer/peer.go:42-78 | with the corrected reply check, the method leaves the state, outbox and error of HandshakeSpec |
| PeerState.Peer.HandlePing | internal/peer/peer.go:80-86 | one Pong carrying "ping" is written, if the connection allows |
| PeerState.Peer.Handshaked | internal/peer/peer.go:88-91 | the info is replaced and the state is HANDSHAKED |
| PeerManager.Written | internal/peer/handle.go:59-70 | what a write leaves in the outbox: the frame exactly when the write succeeds |
| PeerManager.ResponderFramesEncode | internal/peer/handle.go:59-70 | the responder's reply and finalize packets always encode |
| PeerManager.ResponderHandshakedIffReplyWritten | internal/peer/handle.go:49-73 | the responder reaches handshaked exactly when its reply was written, and a failed finalize is only logged |
| PeerManager.ResponderRecordsInitiatorId | internal/peer/handle.go:50-72 | the responder records the initiator's own ID and virtual IP, read back from the init packet |
| PeerManager.UnknownId | internal/peer/manager.go:50 | a dialled peer's ID is "unknown_" followed by the random suffix |
| PeerManager.DialledKeys | internal/peer/manager.go:18-35 | NewManager stores exactly the IDs of the successful dials |
| PeerManager.DialledLastWins | internal/peer/manager.go:24-31 | each stored ID holds the address of the last successful dial under it |
| PeerManager.HandshakeKeyOfDecode | internal/peer/manager.go:56-63 | the looked-up key is the trimmed ID of a record that decodes, and the CIDR is the record's address and prefix |
| PeerManager.DecodeKey | internal/peer/manager.go:57-63 | the first steps of Handshake compute that key and CIDR |
| PeerManager.Respond | internal/peer/handle.go:59-70 | the responder writes as ResponderSpec says, passes through HANDSHAKE_RECEIVED only once its reply went out, and reports whether the peer is to be handshaked |
| PeerManager.Manager.constructor | internal/peer/manager.go:18-35 | NewManager: the peers dialled, keyed by "unknown_"+suffix, INIT, with the dialled address and a new connection |
| PeerManager.Manager.NewConn | internal/peer/handle.go:52-56 | a new INIT peer for the writer, registered under its remote address |
| PeerManager.Manager.TempPeer | internal/peer/handle.go:52-56 | the temporary peer of a remote address is reused, or created when there is none |
| PeerManager.Manager.Handshaked | internal/peer/handle.go:72 | handshaked as the registry design gives it: the peer takes the info and becomes HANDSHAKED, leaves tempPeers, is indexed under the first four bytes of its virtual IP and is in the network "" once |
| PeerManager.Manager.HandshakeInit | internal/peer/handle.go:49-73 | responder: reply first; if it fails the peer stays in tempPeers unchanged; otherwise the peer is handshaked with the trimmed ID and the virtual IP, leaves tempPeers and is indexed under its virtual IP |
| PeerManager.Manager.HandlePacket | internal/peer/handle.go:10-46 | dispatch by tag: AuxPeers writes the peers of "default", Ping answers through the peer of the source VIP, an init payload runs the responder (after which a handshaked initiator is found under its VIP), Finalize marks the peer found HANDSHAKED; the unhandled tags panic having changed nothing |
| PeerManager.Manager.Handshake | internal/peer/manager.go:56-73 | as written: a stored peer gets the connection and becomes HANDSHAKED; a new peer is never stored |
| PeerManager.Manager.HandshakeStoring | internal/peer/manager.go:56-73 | corrected: after a decodable handshake the ID names a HANDSHAKED peer writing to the connection, and no other entry changes |
| Router.ToTunAction | internal/router/router.go:70-74 | the TUN device gets the packet's encoding, or the error is joined with ErrPacketEncode |
| Router.Input | internal/router/router.go:31-68 | one action per tag: Data goes to TUN, AuxPeers answers with "default", Ping pings the sender's peer, Handshake is forwarded; all else is dropped |
| Router.ToTunRoundTrip | internal/router/router.go:35-39 | what TUN receives decodes back to the data packet |
| ServerLoops.NextDelay | internal/core/tcp_server.go:34-56 | back-off: 5 ms from zero, otherwise doubled, capped at 1 s |
| ServerLoops.NextDelayBounded | internal/core/tcp_server.go:34-56 | every delay slept lies in [5 ms, 1 s] |
| ServerLoops.NextOfRunDelay | internal/core/tcp_server.go:40-46 | the k-th delay of a run of temporary errors is min(5 ms · 2^k, 1 s) |
| ServerLoops.AcceptSpec | internal/core/tcp_server.go:34-56 | at most one sleep and one connection per event |
| ServerLoops.AcceptStep | internal/core/tcp_server.go:34-56 | one turn of the accept loop |
| ServerLoops.AcceptedStep | internal/core/tcp_server.go:53-56 | an accepted connection resets the delay and is recorded |
| ServerLoops.TemporaryStep | internal/core/tcp_server.go:38-49 | a temporary error sleeps the next delay |
| ServerLoops.SleepsBounded | internal/core/tcp_server.go:34-56 | all sleeps lie in [5 ms, 1 s] |
| ServerLoops.Temporaries | internal/core/tcp_server.go:38-49 | k temporary errors in a row |
| ServerLoops.SleepsOfRun | internal/core/tcp_server.go:38-49 | a run of k temporary errors sleeps RunDelay(0..k-1) |
| ServerLoops.SleepsOfRunFrom | internal/core/tcp_server.go:38-49 | the same run, continued from any point |
| ServerLoops.ResetAfterAccept | internal/core/tcp_server.go:53-56 | after an accept, the next temporary error sleeps 5 ms |
| ServerLoops.ReturnsIffFatal | internal/core/tcp_server.go:34-56 | the loop returns exactly on a fatal error |
| ServerLoops.DecodeFresh | internal/core/tcp_server.go:114-118 | a packet decoded into `&Packet{}` is delivered exactly when it decodes |
| ServerLoops.DeliveredStep | internal/core/tcp_server.go:103-121 | one turn of the read loop |
| ServerLoops.DeliveredEnd | internal/core/tcp_server.go:103-121 | nothing after a read error |
| ServerLoops.ReadLoop | internal/core/tcp_server.go:103-121 | the packets handed to the router are Delivered(results) |
| ServerLoops.ReadOne | internal/core/tcp_server.go:104-120 | one read adds at most one packet |
| ServerLoops.DeliveredStopsAtError | internal/core/tcp_server.go:103-121 | at most one packet per read, and nothing after the first error |
| ServerLoops.DeliveredKinds | internal/core/tcp_server.go:114-120 | a fresh packet has a nil slot, so only Handshake or HandshakeReply packets reach the router |
| ServerLoops.RouterOnDelivered | internal/router/router.go:31-68 | fed by serve, the router never writes to TUN nor answers AuxPeers or Ping |
| ServerLoops.Taken | internal/core/tcp_server.go:14-20 | bufPool.Get: the last buffer put back, or a new zeroed 1500-byte buffer |
| ServerLoops.TakenOfPut | internal/core/tcp_server.go:14-20 | a buffer put back is the next one taken |
| ServerLoops.Pool.constructor | internal/core/tcp_server.go:14-20 | an empty pool |
| ServerLoops.Pool.Get | internal/core/tcp_server.go:102 | Get follows Taken |
| ServerLoops.Pool.Put | internal/core/tcp_server.go:124-131 | the buffer is put back |
| TcpServer.Conn.constructor | internal/core/tcp_server.go:65-72 | newConn: the remote address, no buffer, open |
| TcpServer.Conn.Serve | internal/core/tcp_server.go:88-122 | one writer per connection; the packets handed over are Delivered(results); a buffer is taken from the pool |
| TcpServer.Conn.Close | internal/core/tcp_server.go:124-131 | the buffer goes back only if serve took one |
| TcpServer.Server.constructor | internal/core/tcp_server.go:28-33 | the listen address |
| TcpServer.Server.ListenAndServe | internal/core/tcp_server.go:28-63 | a failed listen is returned; otherwise sleeps and connections follow AcceptSpec |
| UdpServer.Server.constructor | internal/core/udp_server.go:76-79 | the listen address |
| UdpServer.Server.NewConn | internal/core/udp_server.go:113-119 | a connection back-linked to the server |
| UdpServer.Server.ListenAndServe | internal/core/udp_server.go:76-111 | a failed listen is wrapped; otherwise as AcceptSpec |
| UdpServer.ReadLoopWithWriters | internal/core/udp_server.go:30-59 | packets are Delivered(results), each with its own distinct new writer |
| UdpServer.Conn.constructor | internal/core/udp_server.go:22-28 | the server, the address, no buffer, open |
| UdpServer.Conn.Serve | internal/core/udp_server.go:30-59 | as ReadLoopWithWriters, with a buffer taken from the pool |
| UdpServer.Conn.Close | internal/core/udp_server.go:61-69 | the buffer goes back only if serve took one |
| Utils.ParseCIDROfString | pkg/utils/types.go:29-31 | the text of an IPMask parses back to it exactly when the prefix is at most 32 |
| Utils.Must2IPMaskAsWritten | pkg/utils/types.go:13-27 | as written: the prefix byte is always 32, and any non-CIDR panics |
| Utils.Must2IPMaskAsWrittenDropsPrefix | pkg/utils/types.go:22-26 | "a.b.c.d/24" comes back with 32, not 24 |
| Utils.Must2IPMaskOfBareAddress | pkg/utils/types.go:12-20 | a bare address panics as written; corrected, it gets prefix 24 |
| Utils.Must2IPMask | pkg/utils/types.go:12-27 | corrected: the CIDR's own prefix, always at most 32 |
| Utils.Must2IPMaskOfString | pkg/utils/types.go:12-31 | corrected round trip: Must2IPMask(String(m)) == m |
| Utils.ToIP | pkg/utils/types.go:33-35 | the 16-byte IPv4 form of the address |
| Utils.ToIPIgnoresPrefix | pkg/utils/types.go:33-35 | the prefix plays no part |
| CoreConfig.MaskText | internal/core/config.go:50 | `%d` of a mask starts with '[' |
| CoreConfig.VirtualIPAsWrittenUnparsable | internal/core/config.go:50 | as written, IPv4 CIDR input is stored as text ParseCIDR refuses |
| CoreConfig.NoPrefixAfterSlash | internal/core/config.go:50 | an address and '/' followed by a non-digit is no CIDR |
| CoreConfig.VirtualIPParsesBack | internal/core/config.go:44-60 | corrected: CIDR input is stored as the same network, a bare IPv4 address gets /24, and anything else is ignored |
| CoreConfig.VirtualIPExample | internal/core/config.go:50 | "10.0.0.1/24" breaks as written and reads back correctly |
| CoreConfig.V6WithPrefixParses | internal/core/config.go:54-57 | an IPv6 address with "/24" appended is a CIDR |
| CoreConfig.VirtualIPKeepsValid | internal/core/config.go:44-60 | the stored virtual IP always parses |
| CoreConfig.ApplyAllAppend | internal/core/config.go:27-29 | options apply left to right |
| CoreConfig.ApplyFacts | internal/core/config.go:35-80 | each option touches only its own field, under its guard, and is idempotent |
| CoreConfig.LastIdWins | internal/core/config.go:35-42 | the last non-empty WithID decides the ID |
| CoreConfig.PortStaysValid | internal/core/config.go:62-68 | the port stays in (0, 65535) |
| CoreConfig.VirtualIPStaysValid | internal/core/config.go:21-60 | starting from the default, the virtual IP always parses |
| CoreConfig.DefaultsValid | internal/core/config.go:21-26 | the defaults are port 6780 and 192.168.100.1/24 |
| CoreConfig.Config.Apply | internal/core/config.go:33-80 | running an option's closure is ApplySpec |
| CoreConfig.Config.constructor | internal/core/config.go:21-31 | NewConfig is the defaults followed by the options in order |
| EngineConfig.ApplyAllAppend | internal/engine/config.go:22-24 | options apply left to right |
| EngineConfig.ApplyFacts | internal/engine/config.go:30-63 | each option touches only its own field, under its guard, and is idempotent |
| EngineConfig.LastVirtualIPWins | internal/engine/config.go:39-43 | the last WithVirtualIP decides the virtual IP |
| EngineConfig.PortStaysValid | internal/engine/config.go:45-51 | the port stays in (0, 65535) |
| EngineConfig.Config.Apply | internal/engine/config.go:28-63 | running an option's closure is ApplySpec |
| EngineConfig.Config.constructor | internal/engine/config.go:17-26 | NewConfig is the defaults followed by the options in order |

## Left out

- Sockets, the TUN device, IPC, JSON and gob encoding, goroutines, logging and `time.Sleep` are outside the model.
  - Reads and accepts are sequences of events.
  - A connection's writes follow a fault script.
  - The blocking read of the initiator's handshake is a parameter.
- Randomness: `utils.RandomString` for the node ID and for the "unknown_" suffixes is a parameter.
- `time.Duration` is a natural number of nanoseconds.
- IPv6 parsing in `net.ParseCIDR` and `net.ParseIP` is reduced to a character-class check. Its canonical
  text is not modelled; IPv4 dotted-quad parsing follows Go's rules exactly.
- `ip.To4()` of an IPv4-mapped IPv6 address is not modelled: IPv6 text is never treated as IPv4.
- `PeersReplyPayload` (internal/peer/peer.go:93-110) panics on every call. Its frame is modelled as a
  `PeersReply` body that always encodes.
- The tag constants of pkg/packet/const.go conflict with pkg/packet/consts.go. The consts.go values are used.
  `TypeHandshakeInit` and `TypeHandshakeFinalize` are defined in neither file, so they have no byte.
- The peer code writes frames as a tag plus a payload value, not as bytes. Its tags are not all encodable.
- A packet holds its payload by value, so aliasing between a packet and its payload is not modelled.
- The manager operations that neither manager.go nor handle.go defines follow the registry design:
  - `newConn` makes an INIT peer in the temporary map;
  - `handshaked` (`Manager.Handshaked`) moves the peer from the temporary map to the index by virtual IP
    and adds it to the network "", at the call site handle.go:72 gives it (the end of HandshakeInit);
  - in the network "", only the same peer object is kept from being added twice: a second peer object for
    an already known virtual IP is appended, and self is not put first, since NewManager leaves the groups
    empty;
  - `GetPeer` and `GetPeers` are map lookups. They carry no property of their own.
- `Router.Output` has an empty body. NewRouter only stores its collaborators, and its output channel and
  polling are unused.
- `sync.Pool` is modelled as a LIFO stack. The real pool may drop buffers or hand out any one of them.
- pkg/packet declares `NewWriter` twice: with a remote address (pkg/packet/rw.go:34), the form
  internal/core/tcp_server.go:97 calls, and without one (pkg/packet/io.go:21), the form
  internal/core/udp_server.go:57 and internal/peer/manager.go:51,71 call. Either way the model's `Writer` is a
  writer on the connection that records its remote address.
- The UDP server listens with `net.Listen("tcp")`, so it is modelled with the same accept loop as the TCP
  server.
- The initiator's read is `ReadPacketOnce` on the connection (`GetConn()` is an `io.Reader`). The bytes in
  the pool buffer after the `Read` are a parameter; what the buffer held before the `Read` is not modelled.
- ServerLoops.DecodeFresh: states only the packet delivered and whether it decoded, not the other fields
  left after a failed decode.
- TcpServer.Server.ListenAndServe: with no error, the events have run out while the loop is still accepting;
  the real loop never ends that way.
- UdpServer.Server.ListenAndServe: the same as the TCP server.
- PeerState.Peer.Handshake: uses the corrected reply check; the check as written is `HandshakeAsWritten`.
- CoreConfig.Config.Apply: uses the corrected `WithVirtualIP`; the as-written one is `VirtualIPAsWritten`.

## Findings

| source | as written | input that shows it | evidently intended | confidence | as-written member | corrected member |
|---|---|---|---|---|---|---|
| pkg/utils/types.go:22-26 | `_, bits := ipNet.Mask.Size()` stores the mask width, which is always 32, as the prefix; a bare address reaches `panic` at line 16 | "192.168.56.1/24" gives prefix 32; "192.168.57.1" panics | the prefix length (the first result of Size), with 24 for a bare address as the doc comment says | high, not executed | Utils.Must2IPMaskAsWrittenDropsPrefix | Utils.Must2IPMaskOfString |
| internal/core/config.go:50 | `fmt.Sprintf("%s/%d", ip.String(), ipNet.Mask)` formats the mask bytes | "10.0.0.1/24" is stored as "10.0.0.1/[255 255 255 0]", which ParseCIDR refuses | "10.0.0.1/24", the prefix length in decimal | high, not executed | CoreConfig.VirtualIPAsWrittenUnparsable | CoreConfig.VirtualIPParsesBack |
| internal/peer/peer.go:60-66 | `ReadPacketOnce` decodes into a fresh `Packet[Packable]`, which holds a handshake reply as `*packet.HandshakeReplyPayload` (pkg/packet/packet.go:107), but line 64 asserts `*payload.HandshakeReplyPayload`, a different type, so the assertion never holds | the reply frame 0x10 0x04 0x00 0x02 "hi": it is read, then rejected as "invalid payload type", and no finalize is written | the handshake reply accepted and the finalize packet written | high, not executed | PeerState.AsWrittenRejectsReply | PeerState.ReplyFinalizes |
| internal/peer/manager.go:64-72 | the new peer made for an unknown ID is configured but never put into `m.Peers` | a decodable record whose trimmed ID is not yet a key | the new peer stored under its ID | medium, not executed | PeerManager.Manager.Handshake | PeerManager.Manager.HandshakeStoring |
