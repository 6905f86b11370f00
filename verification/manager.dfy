/**
 * internal/peer/manager.go and internal/peer/handle.go: the peer manager, its dispatch of incoming packets,
 * the responder side of the handshake, the dialling loop of NewManager and Manager.Handshake.
 *
 * The manager operations that neither file defines (newConn, handshaked, GetPeer, GetPeers) and the peer maps
 * they consult (tempPeers, the index by virtual IP GetPeer searches, the groups GetPeers lists) follow the
 * registry design: newConn makes an INIT peer for the writer and registers it under the remote address;
 * handshaked makes the peer HANDSHAKED, takes it out of tempPeers, indexes it under the first four bytes of its
 * virtual IP and adds it to the network ""; the lookups are map lookups.
 */
module PeerManager {
  import opened Bytes
  import opened Wrappers
  import opened Errors
  import opened PacketTypes
  import opened Utils
  import opened Cidr
  import PL = Payload
  import PP = PacketPayload
  import PeerHandshake
  import opened PeerState

  /** "default": the network AuxPeers asks about. */
  const DefaultNetwork: seq<byte> := [100, 101, 102, 97, 117, 108, 116]

  /** "": the network every handshaked peer joins. */
  const RegistryNetwork: seq<byte> := []

  /** "unknown_": the head of the ID of a dialled peer. */
  const UnknownPrefix: seq<byte> := [117, 110, 107, 110, 111, 119, 110, 95]

  /** The responder's reply: a handshake reply saying "ni hao", its virtual IP left zero. */
  const ReplyFrame: Frame := Frame(HandshakeReply, Payload(PL.Reply([110, 105, 32, 104, 97, 111], ZeroMask)))

  /** The responder's finalize packet: a handshake reply payload saying "ok". */
  const ResponderFinalizeFrame: Frame := Frame(HandshakeFinalize, Payload(PL.Reply([111, 107], ZeroMask)))

  /** The reply to AuxPeers. */
  function PeersFrame(peers: seq<Peer>): Frame
  {
    Frame(AuxPeersReply, PeersReply(peers))
  }

  /** A packet as HandlePacket sees it: its tag, its source virtual IP and its payload. */
  datatype Message = Message(typ: Tag, srcVIP: seq<byte>, body: Body)

  /** HandlePacket either returns or panics. */
  datatype Handling = Handled | Panicked

  /** The frames a write leaves in the outbox: the frame, unless the write failed. */
  function Written(faults: seq<bool>, f: Frame): (r: seq<Frame>)
    ensures |r| <= 1 && (r == [f] <==> WriteResult(faults, f).0.None?)
  {
    if WriteResult(faults, f).0.None? then [f] else []
  }

  /** Both frames of the responder encode, so only the connection can make their writes fail. */
  lemma ResponderFramesEncode()
    ensures EncodeError(ReplyFrame.body).None? && EncodeError(ResponderFinalizeFrame.body).None?
  {
  }

  /** What the responder writes, the fault script it leaves, and whether it reached handshaked. */
  datatype Response = Response(sent: seq<Frame>, faults: seq<bool>, handshaked: bool)

  /** The writes of Manager.HandshakeInit: the reply, and only once it is written the finalize packet. */
  function ResponderSpec(faults: seq<bool>): Response
  {
    var (e1, f1) := WriteResult(faults, ReplyFrame);
    if e1.Some? then Response([], f1, false)
    else
      var (e2, f2) := WriteResult(f1, ResponderFinalizeFrame);
      Response([ReplyFrame] + (if e2.None? then [ResponderFinalizeFrame] else []), f2, true)
  }

  /**
   * The responder reaches handshaked exactly when its reply was written, and the reply is always its first
   * frame; a finalize packet that fails to go out is only logged, so the peer is handshaked all the same.
   */
  lemma ResponderHandshakedIffReplyWritten(faults: seq<bool>)
    ensures var s := ResponderSpec(faults);
            (s.handshaked <==> faults == [] || !faults[0]) &&
            (s.handshaked <==> s.sent != []) &&
            (s.sent != [] ==> s.sent[0] == ReplyFrame) &&
            (s.sent == [] ==> s.faults == faults[1..]) &&
            (s.handshaked && |faults| >= 2 && faults[1] ==> s.sent == [ReplyFrame])
  {
  }

  /**
   * The responder records the initiator's own ID: an ID of at most 32 bytes that neither starts nor ends with
   * NUL comes back from the trimmed 32-byte field of the init packet, together with the initiator's virtual IP.
   */
  lemma ResponderRecordsInitiatorId(self: Info)
    requires |self.id| <= 32 && (self.id == [] || (self.id[0] != 0 && self.id[|self.id| - 1] != 0))
    ensures var p := InitFrame(self).body.p;
            TrimNul(p.id) == self.id && p.virtualIP == self.virtualIP
  {
    TrimNulOfCopyTo32(self.id);
  }

  /** The ID connTo gives a dialled peer: "unknown_" and the random suffix. */
  function UnknownId(suffix: seq<byte>): (id: seq<byte>)
    ensures |id| == |UnknownPrefix| + |suffix|
    ensures id[..|UnknownPrefix|] == UnknownPrefix && id[|UnknownPrefix|..] == suffix
  {
    UnknownPrefix + suffix
  }

  /**
   * NewManager's peer map as ID -> dialled address: the addresses are visited in order, a failed dial is
   * skipped, and a later peer stored under the same ID replaces the earlier one.
   */
  function Dialled(addrs: seq<seq<byte>>, dialOk: seq<bool>, suffixes: seq<seq<byte>>): map<seq<byte>, seq<byte>>
    requires |dialOk| == |addrs| && |suffixes| == |addrs|
  {
    if |addrs| == 0 then map[]
    else
      var n := |addrs| - 1;
      var m := Dialled(addrs[..n], dialOk[..n], suffixes[..n]);
      if dialOk[n] then m[UnknownId(suffixes[n]) := addrs[n]] else m
  }

  /** The IDs NewManager stores are exactly those of the successful dials. */
  lemma {:induction false} DialledKeys(addrs: seq<seq<byte>>, dialOk: seq<bool>, suffixes: seq<seq<byte>>, k: seq<byte>)
    requires |dialOk| == |addrs| && |suffixes| == |addrs|
    ensures k in Dialled(addrs, dialOk, suffixes) <==> exists i | 0 <= i < |addrs| :: dialOk[i] && k == UnknownId(suffixes[i])
  {
    if |addrs| > 0 {
      var n := |addrs| - 1;
      DialledKeys(addrs[..n], dialOk[..n], suffixes[..n], k);
      if k in Dialled(addrs, dialOk, suffixes) && !(dialOk[n] && k == UnknownId(suffixes[n])) {
        var i :| 0 <= i < n && dialOk[..n][i] && k == UnknownId(suffixes[..n][i]);
        assert dialOk[i] && k == UnknownId(suffixes[i]);
      }
      if exists i | 0 <= i < |addrs| :: dialOk[i] && k == UnknownId(suffixes[i]) {
        var i :| 0 <= i < |addrs| && dialOk[i] && k == UnknownId(suffixes[i]);
        if i < n {
          assert dialOk[..n][i] && k == UnknownId(suffixes[..n][i]);
        }
      }
    }
  }

  /** Each stored ID holds the address of the last successful dial that produced it. */
  lemma {:induction false} DialledLastWins(addrs: seq<seq<byte>>, dialOk: seq<bool>, suffixes: seq<seq<byte>>, i: nat)
    requires |dialOk| == |addrs| && |suffixes| == |addrs|
    requires i < |addrs| && dialOk[i]
    requires forall j | i < j < |addrs| :: dialOk[j] ==> suffixes[j] != suffixes[i]
    ensures UnknownId(suffixes[i]) in Dialled(addrs, dialOk, suffixes)
    ensures Dialled(addrs, dialOk, suffixes)[UnknownId(suffixes[i])] == addrs[i]
  {
    var n := |addrs| - 1;
    if i < n {
      forall j | i < j < n && dialOk[..n][j]
        ensures suffixes[..n][j] != suffixes[..n][i]
      {
        assert dialOk[j];
      }
      DialledLastWins(addrs[..n], dialOk[..n], suffixes[..n], i);
      assert addrs[..n][i] == addrs[i] && suffixes[..n][i] == suffixes[i];
      if dialOk[n] {
        assert suffixes[n] != suffixes[i];
        assert UnknownId(suffixes[n])[|UnknownPrefix|..] != UnknownId(suffixes[i])[|UnknownPrefix|..];
      }
    }
  }

  /**
   * The key Manager.Handshake looks up: the ID with its NULs trimmed, for a record of at least 38 bytes whose
   * prefix length is at most 32; nothing for any other record.
   */
  function HandshakeKey(data: seq<byte>): (k: Option<seq<byte>>)
  {
    if |data| >= 38 && data[37] <= 32 then Some(TrimNul(data[..32])) else None
  }

  /**
   * HandshakeKey is what Decode gives: the records a new handshake payload accepts are those, its trimmed ID is
   * the key, and its CIDR is the address and prefix of the record.
   */
  lemma HandshakeKeyOfDecode(data: seq<byte>)
    ensures var r := PP.Unmarshal(PP.Handshake(seq(32, _ => 0), false, []), data);
            HandshakeKey(data) == (if r.1.Some? then None else Some(TrimNul(r.0.id))) &&
            (r.1.None? ==> |data| >= 38 && r.0.ipCidr == Format(data[33..37], data[37]))
  {
  }

  /**
   * The first steps of Manager.Handshake: the record decoded into a new payload, and the ID with its NULs
   * trimmed, together with the CIDR the record carries.
   */
  method DecodeKey(data: seq<byte>) returns (key: Option<seq<byte>>, ipCidr: seq<byte>)
    ensures key == HandshakeKey(data)
    ensures key.Some? ==> ipCidr == Format(data[33..37], data[37])
  {
    var handshake, err := PeerHandshake.Decode(data);
    if err.Some? {
      HandshakeKeyOfDecode(data);
      return None, [];
    }
    HandshakeKeyOfDecode(data);
    key := Some(TrimNul(handshake.id));
    ipCidr := handshake.ipCidr;
  }

  /**
   * The writes of HandshakeInit: the reply and, only once it is written, HANDSHAKE_RECEIVED and the finalize
   * packet (a failure is only logged); done says whether the peer is to be handshaked.
   */
  method Respond(w: Writer, p: Peer) returns (done: bool)
    modifies w, p
    ensures var s := ResponderSpec(old(w.faults));
            w.outbox == old(w.outbox) + s.sent && w.faults == s.faults && done == s.handshaked &&
            (done ==> p.state == HandshakeReceived) && (!done ==> p.state == old(p.state))
    ensures p.info == old(p.info) && p.writer == old(p.writer) && p.remoteAddr == old(p.remoteAddr)
    ensures w.remoteAddr == old(w.remoteAddr)
  {
    ResponderFramesEncode();
    var err := w.Write(ReplyFrame);
    if err.Some? {
      return false;
    }
    p.state := HandshakeReceived;
    var _ := w.Write(ResponderFinalizeFrame);
    return true;
  }

  class Manager {
    var info: Info
    /** peer ID -> peer */
    var peers: map<seq<byte>, Peer>
    /** remote address -> peer that has not finished its handshake */
    var tempPeers: map<seq<byte>, Peer>
    /** the index GetPeer searches */
    var byVIP: map<seq<byte>, Peer>
    /** network name -> its peers, what GetPeers returns */
    var groups: map<seq<byte>, seq<Peer>>

    function GetPeer(key: seq<byte>): (r: Option<Peer>)
      reads this
      ensures r.Some? <==> key in byVIP
      ensures r.Some? ==> r.value == byVIP[key]
    {
      if key in byVIP then Some(byVIP[key]) else None
    }

    function GetPeers(network: seq<byte>): (r: seq<Peer>)
      reads this
      ensures network in groups ==> r == groups[network]
      ensures network !in groups ==> r == []
    {
      if network in groups then groups[network] else []
    }

    /** The temporary peer of a remote address, as a set: what HandshakeInit may change besides the writer. */
    function TempPeerOf(addr: seq<byte>): set<object>
      reads this
    {
      if addr in tempPeers then {tempPeers[addr]} else {}
    }

    /** The objects HandlePacket may change for a message arriving on w. */
    function Footprint(w: Writer, msg: Message): set<object>
      reads this, w, byVIP.Values
    {
      match msg.typ
      case AuxPeers => {w}
      case Ping => if msg.srcVIP in byVIP then {byVIP[msg.srcVIP].writer} else {}
      case HandshakeInit => if msg.body.Payload? && msg.body.p.Init? then {this, w} + TempPeerOf(w.remoteAddr) else {}
      case HandshakeFinalize => if msg.srcVIP in byVIP then {byVIP[msg.srcVIP]} else {}
      case _ => {}
    }

    /**
     * NewManager: every address is dialled in order (dialOk says which dials succeed, suffixes stands for the
     * random strings); each dialled peer is an INIT peer whose ID is "unknown_" and the suffix, whose CIDR is
     * the address and whose writer is a new connection to it.
     */
    constructor (id: seq<byte>, cidr: seq<byte>, addrs: seq<seq<byte>>, dialOk: seq<bool>, suffixes: seq<seq<byte>>)
      requires |dialOk| == |addrs| && |suffixes| == |addrs|
      ensures info == Info(id, ZeroMask, cidr)
      ensures tempPeers == map[] && byVIP == map[] && groups == map[]
      ensures peers.Keys == Dialled(addrs, dialOk, suffixes).Keys
      ensures forall k | k in peers ::
                fresh(peers[k]) && fresh(peers[k].writer) && peers[k].state == Init &&
                peers[k].info == Info(k, ZeroMask, Dialled(addrs, dialOk, suffixes)[k]) &&
                peers[k].writer.remoteAddr == Dialled(addrs, dialOk, suffixes)[k] && peers[k].writer.outbox == []
    {
      var ps: map<seq<byte>, Peer> := map[];
      var i := 0;
      while i < |addrs|
        invariant 0 <= i <= |addrs|
        invariant ps.Keys == Dialled(addrs[..i], dialOk[..i], suffixes[..i]).Keys
        invariant forall k | k in ps ::
                    fresh(ps[k]) && fresh(ps[k].writer) && ps[k].state == Init &&
                    ps[k].info == Info(k, ZeroMask, Dialled(addrs[..i], dialOk[..i], suffixes[..i])[k]) &&
                    ps[k].writer.remoteAddr == Dialled(addrs[..i], dialOk[..i], suffixes[..i])[k] && ps[k].writer.outbox == []
      {
        assert addrs[..i + 1][..i] == addrs[..i] && dialOk[..i + 1][..i] == dialOk[..i] && suffixes[..i + 1][..i] == suffixes[..i];
        if dialOk[i] {
          var addr := addrs[i];
          var conn := new Writer(addr, []);
          var peerId := UnknownPrefix + suffixes[i];
          var peer := new Peer(Info(peerId, ZeroMask, addr), [], conn);
          ps := ps[peerId := peer];
        }
        i := i + 1;
      }
      assert addrs[..i] == addrs && dialOk[..i] == dialOk && suffixes[..i] == suffixes;
      info := Info(id, ZeroMask, cidr);
      peers := ps;
      tempPeers := map[];
      byVIP := map[];
      groups := map[];
    }

    /** newConn: a new INIT peer writing to w, registered under w's remote address. */
    method NewConn(w: Writer) returns (p: Peer)
      modifies this
      ensures fresh(p) && p.state == Init && p.writer == w && p.remoteAddr == w.remoteAddr
      ensures p.info == Info([], ZeroMask, [])
      ensures tempPeers == old(tempPeers)[w.remoteAddr := p]
      ensures info == old(info) && peers == old(peers) && byVIP == old(byVIP) && groups == old(groups)
    {
      p := new Peer(Info([], ZeroMask, []), w.remoteAddr, w);
      tempPeers := tempPeers[w.remoteAddr := p];
    }

    /** The first step of HandshakeInit: the temporary peer of w's remote address, made by newConn if there is none. */
    method TempPeer(w: Writer) returns (p: Peer)
      modifies this
      ensures info == old(info) && peers == old(peers) && byVIP == old(byVIP) && groups == old(groups)
      ensures w.remoteAddr in old(tempPeers) ==> p == old(tempPeers[w.remoteAddr]) && tempPeers == old(tempPeers)
      ensures w.remoteAddr !in old(tempPeers) ==>
                fresh(p) && p.state == Init && p.writer == w && p.remoteAddr == w.remoteAddr &&
                p.info == Info([], ZeroMask, []) && tempPeers == old(tempPeers)[w.remoteAddr := p]
    {
      if w.remoteAddr in tempPeers {
        p := tempPeers[w.remoteAddr];
      } else {
        p := NewConn(w);
      }
    }

    /**
     * handshaked: the peer takes the info and becomes HANDSHAKED, leaves tempPeers under every address it was
     * held at, is indexed under the first four bytes of its virtual IP, and is added to the network "" unless
     * it is there already; the other entries stay.
     */
    method Handshaked(p: Peer, peerInfo: Info)
      modifies this, p
      ensures p.state == State.Handshaked && p.info == peerInfo
      ensures p.writer == old(p.writer) && p.remoteAddr == old(p.remoteAddr)
      ensures info == old(info) && peers == old(peers)
      ensures forall k :: k in tempPeers <==> k in old(tempPeers) && old(tempPeers)[k] != p
      ensures forall k | k in tempPeers :: tempPeers[k] == old(tempPeers)[k]
      ensures byVIP == old(byVIP)[peerInfo.virtualIP[..4] := p]
      ensures RegistryNetwork in groups && p in groups[RegistryNetwork]
      ensures groups == old(groups)[RegistryNetwork := groups[RegistryNetwork]]
      ensures groups[RegistryNetwork] == old(GetPeers(RegistryNetwork)) + (if p in old(GetPeers(RegistryNetwork)) then [] else [p])
    {
      p.Handshaked(peerInfo);
      tempPeers := map k | k in tempPeers && tempPeers[k] != p :: tempPeers[k];
      byVIP := byVIP[peerInfo.virtualIP[..4] := p];
      var members := GetPeers(RegistryNetwork);
      groups := groups[RegistryNetwork := members + (if p in members then [] else [p])];
    }

    /**
     * Manager.HandshakeInit (responder side): the temporary peer of w's remote address is reused or created;
     * the reply goes out first and, if it fails, nothing else happens and the peer stays in tempPeers;
     * otherwise the peer passes through HANDSHAKE_RECEIVED, the finalize packet is written, and the peer is
     * handshaked with the trimmed ID and the virtual IP of the init payload: it leaves tempPeers and is found
     * under its virtual IP.
     */
    method HandshakeInit(w: Writer, init: PL.Payload) returns (ghost peer: Peer)
      requires init.Init?
      modifies this, w, TempPeerOf(w.remoteAddr)
      ensures info == old(info) && peers == old(peers)
      ensures w.remoteAddr == old(w.remoteAddr)
      ensures w.remoteAddr in old(tempPeers) ==> peer == old(tempPeers[w.remoteAddr])
      ensures w.remoteAddr !in old(tempPeers) ==> fresh(peer) && peer.writer == w && peer.remoteAddr == w.remoteAddr
      ensures var s := ResponderSpec(old(w.faults));
              w.outbox == old(w.outbox) + s.sent && w.faults == s.faults
      ensures ResponderSpec(old(w.faults)).handshaked ==>
                peer.state == State.Handshaked && peer.info == Info(TrimNul(init.id), init.virtualIP, []) &&
                w.remoteAddr !in tempPeers && peer !in tempPeers.Values &&
                (forall k | k in tempPeers :: k in old(tempPeers) && tempPeers[k] == old(tempPeers)[k]) &&
                (forall k | k in old(tempPeers) && old(tempPeers)[k] != peer :: k in tempPeers) &&
                byVIP == old(byVIP)[init.virtualIP[..4] := peer] &&
                RegistryNetwork in groups && peer in groups[RegistryNetwork]
      ensures !ResponderSpec(old(w.faults)).handshaked ==>
                byVIP == old(byVIP) && groups == old(groups) &&
                w.remoteAddr in tempPeers && peer == tempPeers[w.remoteAddr] &&
                tempPeers.Keys == old(tempPeers.Keys) + {w.remoteAddr} &&
                (forall k | k in old(tempPeers) && k != w.remoteAddr :: tempPeers[k] == old(tempPeers[k]))
      ensures !ResponderSpec(old(w.faults)).handshaked && w.remoteAddr in old(tempPeers) ==>
                peer.state == old(tempPeers[w.remoteAddr].state) && peer.info == old(tempPeers[w.remoteAddr].info)
      ensures !ResponderSpec(old(w.faults)).handshaked && w.remoteAddr !in old(tempPeers) ==>
                peer.state == Init && peer.info == Info([], ZeroMask, [])
    {
      var id := TrimNul(init.id);
      var p := TempPeer(w);
      peer := p;
      var done := Respond(w, p);
      if done {
        Handshaked(p, Info(id, init.virtualIP, []));
      }
    }

    /**
     * Manager.HandlePacket: AuxPeers writes one peers reply for "default"; Ping answers through the peer found
     * under the source virtual IP, if any; HandshakeInit runs the responder when the payload is an init
     * payload and otherwise changes nothing; HandshakeFinalize marks the peer found handshaked; every other tag
     * panics, having changed nothing.
     */
    method HandlePacket(w: Writer, msg: Message) returns (r: Handling)
      modifies Footprint(w, msg)
      ensures r == Panicked <==> msg.typ !in {AuxPeers, Ping, Tag.HandshakeInit, HandshakeFinalize}
      ensures info == old(info) && peers == old(peers)
      ensures !(msg.typ == Tag.HandshakeInit && msg.body.Payload? && msg.body.p.Init?) ==>
                tempPeers == old(tempPeers) && byVIP == old(byVIP) && groups == old(groups)
      ensures msg.typ == AuxPeers ==>
                var f := PeersFrame(old(GetPeers(DefaultNetwork)));
                w.outbox == old(w.outbox) + Written(old(w.faults), f) && w.faults == WriteResult(old(w.faults), f).1
      ensures msg.typ == Ping && msg.srcVIP in byVIP ==>
                var pw := byVIP[msg.srcVIP].writer;
                pw.outbox == old(pw.outbox) + Written(old(pw.faults), PongFrame) && pw.faults == WriteResult(old(pw.faults), PongFrame).1
      ensures msg.typ == Tag.HandshakeInit && msg.body.Payload? && msg.body.p.Init? ==>
                var s := ResponderSpec(old(w.faults));
                var vip := msg.body.p.virtualIP[..4];
                w.outbox == old(w.outbox) + s.sent && w.faults == s.faults &&
                (s.handshaked ==>
                   vip in byVIP && byVIP[vip].state == State.Handshaked &&
                   byVIP[vip].info == Info(TrimNul(msg.body.p.id), msg.body.p.virtualIP, []) &&
                   w.remoteAddr !in tempPeers && byVIP[vip] !in tempPeers.Values) &&
                (!s.handshaked ==>
                   byVIP == old(byVIP) && w.remoteAddr in tempPeers && tempPeers.Keys == old(tempPeers.Keys) + {w.remoteAddr})
      ensures msg.typ == HandshakeFinalize && msg.srcVIP in byVIP ==>
                byVIP[msg.srcVIP].state == State.Handshaked && byVIP[msg.srcVIP].info == old(byVIP[msg.srcVIP].info)
    {
      match msg.typ {
        case AuxPeers =>
          var peersOfNetwork := GetPeers(DefaultNetwork);
          var _ := w.Write(PeersFrame(peersOfNetwork));
          return Handled;
        case Ping =>
          var p := GetPeer(msg.srcVIP);
          if p.Some? {
            p.value.HandlePing();
          }
          return Handled;
        case HandshakeInit =>
          if !(msg.body.Payload? && msg.body.p.Init?) {
            return Handled;
          }
          ghost var _ := HandshakeInit(w, msg.body.p);
          return Handled;
        case HandshakeReply =>
          return Panicked;
        case HandshakeFinalize =>
          var p := GetPeer(msg.srcVIP);
          if p.Some? {
            p.value.state := State.Handshaked;
          }
          return Handled;
        case _ =>
          return Panicked;
      }
    }

    /** The peer Manager.Handshake may change: the stored peer whose ID the record carries, if there is one. */
    function KnownPeerOf(data: seq<byte>): set<object>
      reads this
    {
      var k := HandshakeKey(data);
      if k.Some? && k.value in peers then {peers[k.value]} else {}
    }

    /**
     * Manager.Handshake (passive side): a record that does not decode changes nothing; the stored peer of the
     * trimmed ID gets the connection as its writer and becomes HANDSHAKED; for an unknown ID a new HANDSHAKED
     * peer is made but never stored, so the peer map is unchanged in every case.
     */
    method Handshake(conn: Writer, data: seq<byte>) returns (ghost unstored: Option<Peer>)
      modifies KnownPeerOf(data)
      ensures peers == old(peers)
      ensures var k := HandshakeKey(data);
              k.Some? && k.value in peers ==>
                peers[k.value].writer == conn && peers[k.value].state == State.Handshaked && peers[k.value].info == old(peers[k.value].info)
      ensures unstored.Some? <==> HandshakeKey(data).Some? && HandshakeKey(data).value !in peers
      ensures unstored.Some? ==>
                fresh(unstored.value) && unstored.value.state == State.Handshaked && unstored.value.writer == conn &&
                unstored.value.info == Info(HandshakeKey(data).value, ZeroMask, Format(data[33..37], data[37])) &&
                unstored.value !in peers.Values
    {
      unstored := None;
      var key, ipCidr := DecodeKey(data);
      if key.None? {
        return;
      }
      var id := key.value;
      var peer: Peer;
      if id in peers {
        peer := peers[id];
      } else {
        peer := new Peer(Info(id, ZeroMask, ipCidr), [], conn);
        unstored := Some(peer);
      }
      peer.writer := conn;
      peer.state := State.Handshaked;
    }

    /**
     * Manager.Handshake with the new peer stored under its ID, as the "new peer" branch evidently means: after a
     * handshake that decodes, the sender's ID always names a HANDSHAKED peer writing to conn, and no other entry
     * of the map changes.
     */
    method HandshakeStoring(conn: Writer, data: seq<byte>)
      modifies this, KnownPeerOf(data)
      ensures info == old(info) && tempPeers == old(tempPeers) && byVIP == old(byVIP) && groups == old(groups)
      ensures HandshakeKey(data).None? ==> peers == old(peers)
      ensures var k := HandshakeKey(data);
              k.Some? ==>
                k.value in peers && peers.Keys == old(peers.Keys) + {k.value} &&
                (forall id | id in old(peers) && id != k.value :: peers[id] == old(peers)[id]) &&
                peers[k.value].writer == conn && peers[k.value].state == State.Handshaked
      ensures var k := HandshakeKey(data);
              k.Some? && k.value in old(peers) ==> peers == old(peers) && peers[k.value].info == old(peers[k.value].info)
      ensures var k := HandshakeKey(data);
              k.Some? && k.value !in old(peers) ==>
                fresh(peers[k.value]) && peers[k.value].info == Info(k.value, ZeroMask, Format(data[33..37], data[37]))
    {
      var key, ipCidr := DecodeKey(data);
      if key.None? {
        return;
      }
      var id := key.value;
      var peer: Peer;
      if id in peers {
        peer := peers[id];
      } else {
        peer := new Peer(Info(id, ZeroMask, ipCidr), [], conn);
        peers := peers[id := peer];
      }
      peer.writer := conn;
      peer.state := State.Handshaked;
    }
  }
}
