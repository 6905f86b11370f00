/**
 * internal/peer/peer.go: a peer, its handshake state and the initiator side of the handshake. The connection
 * a peer writes to is a Writer: an outbox of the frames written so far and a script saying which of the next
 * writes on the connection fail. The bytes of the initiator's one blocking read are a parameter.
 */
module PeerState {
  import opened Bytes
  import opened Wrappers
  import opened Errors
  import opened PacketTypes
  import opened Utils
  import PL = Payload
  import PP = PacketPayload
  import PacketCodec

  /** STATE_INIT, STATE_HANDSHAKE_SENT, STATE_HANDSHAKE_RECEIVED, STATE_HANDSHAKED */
  datatype State = Init | HandshakeSent | HandshakeReceived | Handshaked

  /** The byte values of the states: 0 to 3 in declaration order. */
  function StateCode(s: State): (b: byte)
    ensures b <= 3
  {
    match s
    case Init => 0
    case HandshakeSent => 1
    case HandshakeReceived => 2
    case Handshaked => 3
  }

  /** Distinct states have distinct codes. */
  lemma StateCodeInjective(s: State, t: State)
    ensures StateCode(s) == StateCode(t) <==> s == t
  {
  }

  /** Info: a node's ID, its virtual IP, and the address it was dialled at (the CIDR field of manager.go's Info). */
  datatype Info = Info(id: seq<byte>, virtualIP: IPMask, cidr: seq<byte>)

  const ZeroMask: IPMask := [0, 0, 0, 0, 0]

  /** What a written packet carries: a payload of pkg/packet/payload, or the list of peers of a reply to AuxPeers. */
  datatype Body = Payload(p: PL.Payload) | PeersReply(peers: seq<Peer>)

  /** A packet written through a Writer: its type tag and what it carries. */
  datatype Frame = Frame(typ: Tag, body: Body)

  /**
   * The outcome of the initiator's single read: the error ReadPacketOnce returns, or the payload of the packet it
   * decoded. That packet starts with a nil payload, so what it holds is one of pkg/packet's own payload types.
   */
  datatype ReadResult = ReadFailed(err: Error) | ReadOk(payload: PP.Payload)

  /** The packet ReadPacketOnce decodes into: zero header fields and a nil payload. */
  const FreshPacket: PacketCodec.PacketView := PacketCodec.PacketView(0, 0, 0, None)

  /**
   * ReadPacketOnce on the buffer after the connection's Read (None when the Read fails). A read error is joined
   * with ErrPacketIncomplete and a decode error with ErrPacketDecode; a decoded packet holds a handshake payload
   * for tag 3 and a handshake reply for tag 4, and any other tag is a decode error.
   */
  function ReadPacketOnce(read: Option<seq<byte>>): (r: ReadResult)
    ensures read.None? ==> r == ReadFailed(Join(ErrPacketIncomplete, Transport))
    ensures read.Some? ==> var (pkt, e) := PacketCodec.DecodeSpec(FreshPacket, read.value);
              (r.ReadOk? <==> e.None?) && (e.Some? ==> r == ReadFailed(Join(ErrPacketDecode, e.value)))
    ensures r.ReadOk? ==>
              read.Some? && |read.value| >= PacketCodec.HeaderLength &&
              (r.payload.Handshake? <==> read.value[1] == 3) && (r.payload.Reply? <==> read.value[1] == 4)
  {
    match read
    case None => ReadFailed(Join(ErrPacketIncomplete, Transport))
    case Some(buf) =>
      var (pkt, e) := PacketCodec.DecodeSpec(FreshPacket, buf);
      if e.Some? then ReadFailed(Join(ErrPacketDecode, e.value)) else ReadOk(pkt.payload.value)
  }

  /** The error Packet.Encode gives for a body, if any: too large, or a payload that does not encode. */
  function EncodeError(b: Body): (e: Option<Error>)
    ensures b.Payload? && PL.Encode(b.p).Failure? ==> e.Some?
  {
    match b
    case Payload(p) =>
      if PL.Length(p) > PacketCodec.MaxPayload then Some(ErrPacketTooLarge)
      else if PL.Encode(p).Failure? then Some(Join(ErrPacketEncode, PL.Encode(p).error))
      else None
    case PeersReply(_) => None
  }

  /** The script after one write has used its head. */
  function Rest(faults: seq<bool>): seq<bool>
  {
    if faults == [] then [] else faults[1..]
  }

  /**
   * WriteP / WritePayload: the packet is encoded first, and a packet that does not encode is never written;
   * otherwise the connection's next scripted outcome decides (an empty script means success).
   */
  function WriteResult(faults: seq<bool>, f: Frame): (r: (Option<Error>, seq<bool>))
    ensures EncodeError(f.body).Some? ==> r == (EncodeError(f.body), faults)
    ensures EncodeError(f.body).None? ==> r.1 == Rest(faults) && (r.0.None? <==> faults == [] || !faults[0])
  {
    if EncodeError(f.body).Some? then (EncodeError(f.body), faults)
    else if faults != [] && faults[0] then (Some(Transport), faults[1..])
    else (None, Rest(faults))
  }

  /** packet.Writer: where a peer's packets go. */
  class Writer {
    var remoteAddr: seq<byte>
    var outbox: seq<Frame>
    var faults: seq<bool>

    constructor (remoteAddr: seq<byte>, faults: seq<bool>)
      ensures this.remoteAddr == remoteAddr && outbox == [] && this.faults == faults
    {
      this.remoteAddr := remoteAddr;
      outbox := [];
      this.faults := faults;
    }

    method Write(f: Frame) returns (err: Option<Error>)
      modifies this
      ensures (err, faults) == WriteResult(old(faults), f)
      ensures outbox == old(outbox) + (if err.None? then [f] else [])
      ensures remoteAddr == old(remoteAddr)
    {
      err := EncodeError(f.body);
      if err.Some? {
        return;
      }
      if faults != [] && faults[0] {
        err := Some(Transport);
      } else {
        outbox := outbox + [f];
      }
      faults := Rest(faults);
    }
  }

  /** The init packet of the initiator: its ID copied into 32 bytes, DHCP set, its own virtual IP. */
  function InitFrame(self: Info): Frame
  {
    Frame(HandshakeInit, Payload(PL.Init(CopyTo32(self.id), self.virtualIP, true)))
  }

  /** The initiator's finalize packet: the string payload "ok". */
  const FinalizeFrame: Frame := Frame(HandshakeFinalize, Payload(PL.Text([111, 107])))

  /** The answer to a ping: a Pong packet with the string payload "ping". */
  const PongFrame: Frame := Frame(Pong, Payload(PL.Text([112, 105, 110, 103])))

  /** What the initiator's handshake leaves behind: the state, the frames written, the fault script, the error. */
  datatype Outcome = Outcome(state: State, sent: seq<Frame>, faults: seq<bool>, err: Option<Error>)

  /**
   * Peer.handshake, given whether the payload check after the read accepts what was read: write the init packet,
   * and only once it is written move to HANDSHAKE_SENT; then read one packet, and only when the check accepts
   * it write the finalize packet.
   */
  function HandshakeRun(state: State, faults: seq<bool>, self: Info, reply: ReadResult, accepted: bool): Outcome
  {
    var (e1, f1) := WriteResult(faults, InitFrame(self));
    if e1.Some? then Outcome(state, [], f1, e1)
    else if reply.ReadFailed? then Outcome(HandshakeSent, [InitFrame(self)], f1, Some(reply.err))
    else if !accepted then Outcome(HandshakeSent, [InitFrame(self)], f1, Some(InvalidPayloadType))
    else
      var (e2, f2) := WriteResult(f1, FinalizeFrame);
      Outcome(HandshakeSent, [InitFrame(self)] + (if e2.None? then [FinalizeFrame] else []), f2, e2)
  }

  /**
   * The type assertion to *payload.HandshakeReplyPayload on the payload read. A packet decoded by
   * ReadPacketOnce holds one of pkg/packet's payload types, never one of pkg/packet/payload's, so the
   * assertion never holds.
   */
  function AsPayloadReply(q: PP.Payload): (r: Option<PL.Payload>)
    ensures r.Some? ==> r.value.Reply?
  {
    None
  }

  /** Peer.handshake as written: the check after the read is the type assertion to the payload package's reply. */
  function HandshakeAsWritten(state: State, faults: seq<bool>, self: Info, reply: ReadResult): Outcome
  {
    HandshakeRun(state, faults, self, reply, reply.ReadOk? && AsPayloadReply(reply.payload).Some?)
  }

  /** Peer.handshake as intended: the check after the read accepts a handshake reply, the tag-4 payload. */
  function HandshakeSpec(state: State, faults: seq<bool>, self: Info, reply: ReadResult): Outcome
  {
    HandshakeRun(state, faults, self, reply, reply.ReadOk? && reply.payload.Reply?)
  }

  /**
   * As written, the initiator never writes its finalize packet and never completes without an error, whatever
   * it reads: a handshake reply is reported as an invalid payload type.
   */
  lemma AsWrittenNeverFinalizes(state: State, faults: seq<bool>, self: Info, reply: ReadResult)
    ensures var o := HandshakeAsWritten(state, faults, self, reply);
            FinalizeFrame !in o.sent && o.err.Some? &&
            (reply.ReadOk? && WriteResult(faults, InitFrame(self)).0.None? ==> o.err == Some(InvalidPayloadType))
  {
  }

  /**
   * A well-formed handshake reply "hi" (version 1, tag 4, length 2): ReadPacketOnce returns it, the handshake as
   * written rejects it, and the corrected one writes the finalize packet.
   */
  lemma AsWrittenRejectsReply(self: Info)
    requires self.virtualIP[4] <= 32
    ensures var reply := ReadPacketOnce(Some([16, 4, 0, 2, 104, 105]));
            reply == ReadOk(PP.Reply([104, 105])) &&
            HandshakeAsWritten(Init, [], self, reply).err == Some(InvalidPayloadType) &&
            HandshakeSpec(Init, [], self, reply) == Outcome(HandshakeSent, [InitFrame(self), FinalizeFrame], [], None)
  {
  }

  /** A handshake reply read after the init packet went out leads to the finalize packet, once it is written. */
  lemma ReplyFinalizes(state: State, faults: seq<bool>, self: Info, hello: seq<byte>)
    requires WriteResult(faults, InitFrame(self)).0.None?
    requires var f1 := WriteResult(faults, InitFrame(self)).1; f1 == [] || !f1[0]
    ensures var o := HandshakeSpec(state, faults, self, ReadOk(PP.Reply(hello)));
            o.state == HandshakeSent && o.sent == [InitFrame(self), FinalizeFrame] && o.err.None?
  {
  }

  /**
   * The state becomes HANDSHAKE_SENT exactly when the init packet was written; otherwise nothing is written and
   * the state is unchanged. The handshake never sets HANDSHAKED itself.
   */
  lemma HandshakeSentIffInitWritten(state: State, faults: seq<bool>, self: Info, reply: ReadResult)
    ensures var o := HandshakeSpec(state, faults, self, reply);
            (o.sent != [] <==> WriteResult(faults, InitFrame(self)).0.None?) &&
            (o.sent != [] ==> o.state == HandshakeSent && o.sent[0] == InitFrame(self)) &&
            (o.sent == [] ==> o.state == state && o.err.Some?) &&
            (o.state == Handshaked ==> state == Handshaked)
  {
  }

  /**
   * A finalize packet is written only after a read that returned a handshake reply, at most once, and always
   * after the init packet; without it the handshake reports an error.
   */
  lemma FinalizeOnlyAfterReply(state: State, faults: seq<bool>, self: Info, reply: ReadResult)
    ensures var o := HandshakeSpec(state, faults, self, reply);
            |o.sent| <= 2 &&
            (FinalizeFrame in o.sent ==> reply.ReadOk? && reply.payload.Reply? && o.sent == [InitFrame(self), FinalizeFrame]) &&
            (o.err.None? <==> |o.sent| == 2)
  {
  }

  /** An initiator whose own prefix is above 32 cannot encode its init packet: nothing is sent and the state stays. */
  lemma InvalidPrefixNeverSent(state: State, faults: seq<bool>, self: Info, reply: ReadResult)
    requires self.virtualIP[4] > 32
    ensures var o := HandshakeSpec(state, faults, self, reply);
            o.sent == [] && o.state == state && o.faults == faults &&
            o.err == Some(Join(ErrPacketEncode, InvalidVirtualIP(CidrSyntax)))
  {
  }

  /** The ID in the init packet is the initiator's, cut to 32 bytes and padded with NULs. */
  lemma InitFrameCarriesId(self: Info)
    ensures var p := InitFrame(self).body.p;
            |p.id| == 32 && (forall i | 0 <= i < 32 :: p.id[i] == if i < |self.id| then self.id[i] else 0) &&
            p.dhcp && p.virtualIP == self.virtualIP
  {
  }

  class Peer {
    var info: Info
    var state: State
    var remoteAddr: seq<byte>
    var writer: Writer

    constructor (info: Info, remoteAddr: seq<byte>, writer: Writer)
      ensures this.info == info && state == Init && this.remoteAddr == remoteAddr && this.writer == writer
    {
      this.info := info;
      state := Init;
      this.remoteAddr := remoteAddr;
      this.writer := writer;
    }

    /** Peer.handshake (initiator side) with the corrected reply check, proved against HandshakeSpec. */
    method Handshake(self: Info, reply: ReadResult) returns (err: Option<Error>)
      modifies this, writer
      ensures writer == old(writer) && info == old(info) && remoteAddr == old(remoteAddr)
      ensures var o := HandshakeSpec(old(state), old(writer.faults), self, reply);
              state == o.state && writer.outbox == old(writer.outbox) + o.sent && writer.faults == o.faults && err == o.err
      ensures writer.remoteAddr == old(writer.remoteAddr)
    {
      var idBytes := CopyTo32(self.id);
      var handshake := Frame(HandshakeInit, Payload(PL.Init(idBytes, self.virtualIP, true)));
      err := writer.Write(handshake);
      if err.Some? {
        return;
      }
      state := HandshakeSent;
      if reply.ReadFailed? {
        return Some(reply.err);
      }
      var resp := reply.payload;
      if !resp.Reply? {
        return Some(InvalidPayloadType);
      }
      err := writer.Write(FinalizeFrame);
    }

    /** Peer.HandlePing: one Pong packet carrying "ping" to this peer's writer; a failure is only logged. */
    method HandlePing()
      modifies writer
      ensures writer.outbox == old(writer.outbox) + (if WriteResult(old(writer.faults), PongFrame).0.None? then [PongFrame] else [])
      ensures writer.faults == WriteResult(old(writer.faults), PongFrame).1
      ensures writer.remoteAddr == old(writer.remoteAddr)
    {
      var _ := writer.Write(PongFrame);
    }

    /** Peer.handshaked: the info is replaced and the state becomes HANDSHAKED; nothing else changes. */
    method Handshaked(info: Info)
      modifies this
      ensures this.info == info && state == State.Handshaked
      ensures remoteAddr == old(remoteAddr) && writer == old(writer)
    {
      this.info := info;
      state := State.Handshaked;
    }
  }
}
