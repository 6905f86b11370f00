/**
 * The packet type tags of pkg/packet/consts.go. The tags are numbered from 0 in declaration order
 * (Data = 0 ... CmdReply = 8). HandshakeInit and HandshakeFinalize are used by the peer code as tags of
 * their own but are given no value anywhere, so they have no byte.
 */
module PacketTypes {
  import opened Bytes
  import opened Wrappers

  /** ProtocolVersion */
  const ProtocolVersion: byte := 1

  datatype Tag =
    | Data
    | AuxPeers
    | AuxPeersReply
    | Handshake
    | HandshakeReply
    | Ping
    | Pong
    | CmdRequest
    | CmdReply
    | HandshakeInit
    | HandshakeFinalize

  /** The byte a tag is sent as; None for the two tags that have none. */
  function Code(t: Tag): (r: Option<byte>)
    ensures r.None? <==> t == HandshakeInit || t == HandshakeFinalize
    ensures r.Some? ==> r.value <= 8
  {
    match t
    case Data => Some(0)
    case AuxPeers => Some(1)
    case AuxPeersReply => Some(2)
    case Handshake => Some(3)
    case HandshakeReply => Some(4)
    case Ping => Some(5)
    case Pong => Some(6)
    case CmdRequest => Some(7)
    case CmdReply => Some(8)
    case HandshakeInit => None
    case HandshakeFinalize => None
  }

  /** The tag a byte on the wire names, if any. */
  function TagOf(b: byte): (r: Option<Tag>)
    ensures r.Some? ==> Code(r.value) == Some(b)
  {
    if b == 0 then Some(Data)
    else if b == 1 then Some(AuxPeers)
    else if b == 2 then Some(AuxPeersReply)
    else if b == 3 then Some(Handshake)
    else if b == 4 then Some(HandshakeReply)
    else if b == 5 then Some(Ping)
    else if b == 6 then Some(Pong)
    else if b == 7 then Some(CmdRequest)
    else if b == 8 then Some(CmdReply)
    else None
  }

  /** Code and TagOf are inverse: exactly the bytes 0 to 8 name a tag, and every tag with a byte is named by it. */
  lemma TagOfCode(t: Tag, b: byte)
    ensures TagOf(b) == Some(t) <==> Code(t) == Some(b)
    ensures TagOf(b).Some? <==> b <= 8
  {
  }
}
