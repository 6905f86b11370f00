/**
 * internal/router/router.go: Router.Input, a switch on the packet type that hands each packet to one
 * collaborator. The answers of the collaborators it consults (the peers of the "default" network, the peer
 * of the writer's remote address) are parameters, and the result is the one action Input takes.
 */
module Router {
  import opened Bytes
  import opened Wrappers
  import opened Errors
  import opened PacketTypes
  import PP = PacketPayload
  import opened PacketCodec
  import opened PeerState
  import PeerManager

  datatype Action =
      /** toTun: the TUN device is given the encoded packet */
    | ToTun(bytes: seq<byte>)
      /** toTun: TunDevice.WritePacket could not encode the packet; the error is only logged */
    | TunEncodeFailed(err: Error)
      /** one AuxPeersReply packet written to the writer of the input */
    | WriteToSender(frame: Frame)
      /** HandlePing on the peer found */
    | PingPeer(peer: Peer)
      /** manager.Handshake with the writer and the handshake payload */
    | ForwardHandshake(remoteAddr: seq<byte>, handshake: PP.Payload)
      /** a packet that is dropped, a lookup that found nothing, or an error that is only logged */
    | Nothing

  /** TunDevice.WritePacket's encoding step: the packet's bytes, or the encode error joined with ErrPacketEncode. */
  function ToTunAction(pkt: PacketView): (a: Action)
    ensures a.ToTun? <==> EncodeSpec(pkt).Success?
    ensures a.ToTun? ==> a.bytes == EncodeSpec(pkt).value
    ensures a.TunEncodeFailed? ==> Is(a.err, ErrPacketEncode)
  {
    match EncodeSpec(pkt)
    case Success(bytes) => ToTun(bytes)
    case Failure(e) => TunEncodeFailed(Join(ErrPacketEncode, e))
  }

  /**
   * Router.Input. peersOfDefault is what GetPeers("default") answered, peerOfSender what GetPeer answered for
   * the writer's remote address.
   */
  function Input(remoteAddr: seq<byte>, pkt: PacketView, peersOfDefault: Result<seq<Peer>, Error>, peerOfSender: Option<Peer>): (a: Action)
    ensures TagOf(pkt.typ) !in {Some(Data), Some(AuxPeers), Some(Ping), Some(Handshake)} ==> a == Nothing
    ensures a.ToTun? || a.TunEncodeFailed? <==> TagOf(pkt.typ) == Some(Data)
    ensures a.ToTun? ==> EncodeSpec(pkt) == Success(a.bytes)
    ensures a.TunEncodeFailed? ==> EncodeSpec(pkt).Failure? && Is(a.err, ErrPacketEncode)
    ensures a.WriteToSender? <==> TagOf(pkt.typ) == Some(AuxPeers) && peersOfDefault.Success?
    ensures a.WriteToSender? ==> a.frame == Frame(AuxPeersReply, PeersReply(peersOfDefault.value))
    ensures a.PingPeer? <==> TagOf(pkt.typ) == Some(Ping) && peerOfSender.Some?
    ensures a.PingPeer? ==> a.peer == peerOfSender.value
    ensures a.ForwardHandshake? <==> TagOf(pkt.typ) == Some(Handshake) && pkt.payload.Some? && pkt.payload.value.Handshake?
    ensures a.ForwardHandshake? ==> a.remoteAddr == remoteAddr && Some(a.handshake) == pkt.payload
  {
    match TagOf(pkt.typ)
    case Some(Data) => ToTunAction(pkt)
    case Some(AuxPeers) =>
      if peersOfDefault.Failure? then Nothing
      else WriteToSender(PeerManager.PeersFrame(peersOfDefault.value))
    case Some(Ping) => if peerOfSender.Some? then PingPeer(peerOfSender.value) else Nothing
    case Some(Handshake) =>
      if pkt.payload.Some? && pkt.payload.value.Handshake? then ForwardHandshake(remoteAddr, pkt.payload.value)
      else Nothing
    case _ => Nothing
  }

  /**
   * A data packet the TUN device is given is the packet itself: decoded into any packet holding a payload of
   * its kind, the bytes give back its version, type, payload length and payload bytes.
   */
  lemma ToTunRoundTrip(remoteAddr: seq<byte>, pkt: PacketView, before: PacketView,
                       peersOfDefault: Result<seq<Peer>, Error>, peerOfSender: Option<Peer>)
    requires Input(remoteAddr, pkt, peersOfDefault, peerOfSender).ToTun?
    requires pkt.version < 16 && Accepts(before.payload, pkt.typ, pkt.payload.value)
    ensures var r := DecodeSpec(before, Input(remoteAddr, pkt, peersOfDefault, peerOfSender).bytes);
            r.1.None? && r.0.version == pkt.version && r.0.typ == pkt.typ && r.0.length == PP.Length(pkt.payload.value) &&
            PP.Encode(r.0.payload.value) == PP.Encode(pkt.payload.value)
  {
    DecodeOfEncode(pkt, before);
  }
}
