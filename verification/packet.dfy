/**
 * pkg/packet/packet.go: the packet frame. A 4-byte header (the version in the high nibble of byte 0 with a
 * zero low nibble, the type tag in byte 1, the payload length big-endian in bytes 2-3) and the payload bytes.
 * Packet is a class because Decode overwrites its fields in place; the payload it holds is a PacketPayload
 * value, and None stands for a nil payload interface.
 */
module PacketCodec {
  import opened Bytes
  import opened Wrappers
  import opened Errors
  import opened PacketTypes
  import PP = PacketPayload

  /** 0xFFFF-8: the largest payload length Encode accepts. */
  const MaxPayload: nat := 0xFFFF - 8

  const HeaderLength: nat := 4

  /** The fields of a Packet. */
  datatype PacketView = PacketView(version: byte, typ: byte, length: uint16, payload: Option<PP.Payload>)

  /** The four header bytes: version << 4, type, and the payload length big-endian. */
  function Header(version: byte, typ: byte, length: nat): (h: seq<byte>)
    requires length < U16Limit
    ensures |h| == HeaderLength
    ensures h[0] / 16 == version % 16 && h[0] % 16 == 0 && h[1] == typ && ReadBigEndian16(h[2], h[3]) == length
  {
    ShiftedNibble(version);
    [(version * 16) % 256, typ] + BigEndian16(length)
  }

  /** version << 4 keeps the low nibble of the version in the high nibble of the byte. */
  lemma ShiftedNibble(v: byte)
    ensures ((v * 16) % 256) / 16 == v % 16 && ((v * 16) % 256) % 16 == 0
  {
    var q, r := v / 16, v % 16;
    assert v * 16 == 256 * q + 16 * r;
    LowBytesOfShift(q, r);
    NibbleOfShift(r);
  }

  lemma LowBytesOfShift(q: int, r: int)
    requires 0 <= r < 16
    ensures (256 * q + 16 * r) % 256 == 16 * r
  {
  }

  lemma NibbleOfShift(r: int)
    requires 0 <= r < 16
    ensures (16 * r) / 16 == r && (16 * r) % 16 == 0
  {
  }

  /**
   * Packet.Encode. A nil payload makes the call panic (NilPayload). The length written is the payload's own
   * Length(), not the packet's Length field.
   */
  function EncodeSpec(p: PacketView): (r: Result<seq<byte>, Error>)
    ensures r == Failure(ErrPacketTooLarge) <==> p.payload.Some? && PP.Length(p.payload.value) > MaxPayload
    ensures r.Success? <==> p.payload.Some? && PP.Length(p.payload.value) <= MaxPayload && PP.Encode(p.payload.value).Success?
    ensures r.Success? ==>
              var d := r.value;
              |d| == HeaderLength + PP.Length(p.payload.value) &&
              d[0] / 16 == p.version % 16 && d[0] % 16 == 0 && d[1] == p.typ &&
              ReadBigEndian16(d[2], d[3]) == PP.Length(p.payload.value) &&
              d[HeaderLength..] == PP.Encode(p.payload.value).value
  {
    match p.payload
    case None => Failure(NilPayload)
    case Some(pl) =>
      if PP.Length(pl) > MaxPayload then Failure(ErrPacketTooLarge)
      else
        match PP.Encode(pl)
        case Failure(e) => Failure(Join(ErrPacketEncode, e))
        case Success(body) =>
          var d := Header(p.version, p.typ, PP.Length(pl)) + body;
          assert d[HeaderLength..] == body;
          Success(d)
  }

  /** The payload a nil slot gets for a type byte: only Handshake and HandshakeReply have one. */
  function FreshPayload(typ: byte): (r: Option<PP.Payload>)
    ensures r.Some? <==> typ == 3 || typ == 4
  {
    if TagOf(typ) == Some(Handshake) then Some(PP.Handshake(seq(32, _ => 0), false, []))
    else if TagOf(typ) == Some(HandshakeReply) then Some(PP.Reply([]))
    else None
  }

  /** The payload Decode fills in: the packet's own one, or else the one a nil slot gets for the tag. */
  function Slot(payload: Option<PP.Payload>, typ: byte): (r: Option<PP.Payload>)
    ensures payload.Some? ==> r == payload
    ensures payload.None? ==> (r.Some? <==> typ == 3 || typ == 4)
  {
    if payload.Some? then payload else FreshPayload(typ)
  }

  /** A frame whose header is there and whose declared payload fits in the input. */
  predicate Complete(data: seq<byte>)
  {
    |data| >= HeaderLength && ReadBigEndian16(data[2], data[3]) + HeaderLength <= |data|
  }

  /**
   * Packet.Decode as a function of the old fields and the input: the new fields and the error returned.
   * The header fields are overwritten before the completeness check; a preset payload is decoded whatever the
   * tag, a nil one is only filled in for Handshake and HandshakeReply; the payload decoder gets exactly the
   * declared slice.
   */
  function DecodeSpec(p: PacketView, data: seq<byte>): (r: (PacketView, Option<Error>))
    ensures |data| < HeaderLength ==> r == (p, Some(Join(ErrPacketDecode, ErrPacketTooSmall)))
    ensures |data| >= HeaderLength ==>
              r.0.version == data[0] / 16 && r.0.typ == data[1] && r.0.length == ReadBigEndian16(data[2], data[3])
    ensures |data| >= HeaderLength && ReadBigEndian16(data[2], data[3]) + HeaderLength > |data| ==>
              r.1 == Some(Join(ErrPacketDecode, ErrPacketIncomplete)) && r.0.payload == p.payload
    ensures r.1.None? ==> r.0.payload.Some?
    ensures p.payload.None? && r.1.None? ==> data[1] == 3 || data[1] == 4
    ensures Complete(data) && p.payload.None? && data[1] != 3 && data[1] != 4 ==>
              r == (r.0, Some(Join(ErrPacketDecode, UnknownPacketType(data[1])))) && r.0.payload.None?
    ensures Complete(data) && Slot(p.payload, data[1]).Some? ==>
              var (q, e) := PP.Decode(Slot(p.payload, data[1]).value, data[HeaderLength..HeaderLength + ReadBigEndian16(data[2], data[3])]);
              r.0.payload == Some(q) && r.1 == (if e.Some? then Some(Join(ErrPacketDecode, e.value)) else None)
  {
    if |data| < HeaderLength then (p, Some(Join(ErrPacketDecode, ErrPacketTooSmall)))
    else
      var h := p.(version := data[0] / 16, typ := data[1], length := ReadBigEndian16(data[2], data[3]));
      if h.length + HeaderLength > |data| then (h, Some(Join(ErrPacketDecode, ErrPacketIncomplete)))
      else
        match Slot(p.payload, h.typ)
        case None => (h, Some(Join(ErrPacketDecode, UnknownPacketType(h.typ))))
        case Some(pl) =>
          var (after, err) := PP.Decode(pl, data[HeaderLength..HeaderLength + h.length]);
          (h.(payload := Some(after)), if err.Some? then Some(Join(ErrPacketDecode, err.value)) else None)
  }

  /** decodePayload: only the Handshake tag (byte 3) is known; the payload decoder's error is joined with ErrPacketDecode. */
  function DecodePayload(typ: byte, data: seq<byte>): (r: Result<PP.Payload, Error>)
    ensures r.Success? ==> typ == 3 && r.value.Handshake?
    ensures typ != 3 ==> r == Failure(Join(ErrPacketDecode, UnknownPacketType(typ)))
    ensures typ == 3 ==>
              var (q, e) := PP.Decode(PP.Handshake(seq(32, _ => 0), false, []), data);
              r == if e.Some? then Failure(Join(ErrPacketDecode, e.value)) else Success(q)
  {
    if typ != 3 then Failure(Join(ErrPacketDecode, UnknownPacketType(typ)))
    else
      var (after, err) := PP.Decode(PP.Handshake(seq(32, _ => 0), false, []), data);
      if err.Some? then Failure(Join(ErrPacketDecode, err.value)) else Success(after)
  }

  /** Whether decoding into this slot builds a payload of pl's kind for this tag. */
  predicate Accepts(slot: Option<PP.Payload>, typ: byte, pl: PP.Payload)
  {
    match slot
    case Some(q) => PP.SameKind(q, pl)
    case None => (typ == 3 && pl.Handshake?) || (typ == 4 && pl.Reply?)
  }

  /**
   * Round trip: decoding an encoded packet (version below 16) into a packet whose slot takes the payload's kind
   * succeeds and restores version, type, length and the payload's bytes.
   */
  lemma DecodeOfEncode(p: PacketView, before: PacketView)
    requires p.version < 16 && EncodeSpec(p).Success?
    requires Accepts(before.payload, p.typ, p.payload.value)
    ensures var r := DecodeSpec(before, EncodeSpec(p).value);
            r.1.None? && r.0.version == p.version && r.0.typ == p.typ &&
            r.0.length == PP.Length(p.payload.value) && r.0.payload.Some? &&
            PP.Encode(r.0.payload.value) == PP.Encode(p.payload.value)
  {
    NibbleOfSmall(p.version);
    DecodeOfFrame(before, EncodeSpec(p).value, p.version, p.typ, p.payload.value);
  }

  lemma NibbleOfSmall(v: byte)
    requires v < 16
    ensures v % 16 == v
  {
  }

  /** Bytes with a header announcing pl's length and type, followed by pl's encoding, decode to a payload like pl. */
  lemma DecodeOfFrame(before: PacketView, d: seq<byte>, version: byte, typ: byte, pl: PP.Payload)
    requires |d| == HeaderLength + PP.Length(pl) && d[0] / 16 == version && d[1] == typ
    requires ReadBigEndian16(d[2], d[3]) == PP.Length(pl)
    requires PP.Encode(pl).Success? && d[HeaderLength..] == PP.Encode(pl).value
    requires Accepts(before.payload, typ, pl)
    ensures var r := DecodeSpec(before, d);
            r.1.None? && r.0.version == version && r.0.typ == typ && r.0.length == PP.Length(pl) && r.0.payload.Some? &&
            PP.Encode(r.0.payload.value) == PP.Encode(pl)
  {
    assert d[HeaderLength..HeaderLength + PP.Length(pl)] == PP.Encode(pl).value;
    var slot := if before.payload.Some? then before.payload.value else FreshPayload(typ).value;
    PP.DecodeOfEncode(pl, slot);
  }

  /** Bytes after the declared payload are ignored. */
  lemma DecodeIgnoresTrailing(p: PacketView, data: seq<byte>, rest: seq<byte>)
    requires |data| >= HeaderLength && ReadBigEndian16(data[2], data[3]) + HeaderLength <= |data|
    ensures DecodeSpec(p, data + rest) == DecodeSpec(p, data)
  {
    var n := ReadBigEndian16(data[2], data[3]);
    assert (data + rest)[HeaderLength..HeaderLength + n] == data[HeaderLength..HeaderLength + n];
  }

  /** An encoded packet is complete: decoding the bytes of a frame followed by anything gives the frame's result. */
  lemma DecodeOfEncodeWithTrailing(p: PacketView, before: PacketView, rest: seq<byte>)
    requires EncodeSpec(p).Success?
    ensures DecodeSpec(before, EncodeSpec(p).value + rest) == DecodeSpec(before, EncodeSpec(p).value)
  {
    DecodeIgnoresTrailing(before, EncodeSpec(p).value, rest);
  }

  /** packet_test.go TestEncode_Success: version 1, type Handshake, a 2-byte payload. */
  lemma EncodeSample()
    ensures EncodeSpec(PacketView(1, 3, 2, Some(PP.Text([1, 2])))) == Success([16, 3, 0, 2, 1, 2])
  {
    assert BigEndian16(2) == [0, 2];
    assert Header(1, 3, 2) + [1, 2] == [16, 3, 0, 2, 1, 2];
  }

  /** packet_test.go TestEncode_PacketTooLarge: a payload of 0xFFFF-7 bytes is refused. */
  lemma EncodeTooLargeSample(v: byte, t: byte, len: uint16)
    ensures EncodeSpec(PacketView(v, t, len, Some(PP.Text(seq(0xFFFF - 7, _ => 0))))) == Failure(ErrPacketTooLarge)
  {
  }

  /** packet_test.go TestDecode_*: success into a preset payload, too small, incomplete, unknown type, payload error. */
  lemma DecodeSamples(p: PacketView)
    ensures DecodeSpec(PacketView(0, 0, 0, Some(PP.Text([]))), [16, 3, 0, 2, 1, 2]) ==
            (PacketView(1, 3, 2, Some(PP.Text([1, 2]))), None)
    ensures DecodeSpec(p, [1, 2, 3]).1 == Some(Join(ErrPacketDecode, ErrPacketTooSmall))
    ensures DecodeSpec(p, [16, 0, 3, 0, 3, 1]).1 == Some(Join(ErrPacketDecode, ErrPacketIncomplete))
    ensures DecodeSpec(PacketView(0, 0, 0, None), [16, 255, 0, 0]).1 == Some(Join(ErrPacketDecode, UnknownPacketType(255)))
    ensures var e := DecodeSpec(PacketView(0, 0, 0, Some(PP.Handshake(seq(32, _ => 0), false, []))), [16, 3, 0, 2, 0, 0]).1;
            e.Some? && Is(e.value, ErrPacketTooSmall)
  {
    assert [16, 3, 0, 2, 1, 2][HeaderLength..HeaderLength + 2] == [1, 2];
  }

  /** packet_test.go TestDecodePayload_*: a 38-byte record decodes under Handshake; 0xFF is unknown. */
  lemma DecodePayloadSamples()
    ensures DecodePayload(3, [104, 101, 108, 108, 111] + seq(28, _ => 0) + [192, 168, 22, 1, 24]).Success?
    ensures DecodePayload(255, []) == Failure(Join(ErrPacketDecode, UnknownPacketType(255)))
  {
    var d := [104, 101, 108, 108, 111] + seq(28, _ => 0) + [192, 168, 22, 1, 24];
    assert |d| == 38 && d[37] == 24;
  }

  class Packet {
    var version: byte
    var typ: byte
    var length: uint16
    var payload: Option<PP.Payload>

    function View(): PacketView
      reads this
    {
      PacketView(version, typ, length, payload)
    }

    /** &Packet{}: every field zero, no payload. */
    constructor Empty()
      ensures View() == PacketView(0, 0, 0, None)
    {
      version, typ, length, payload := 0, 0, 0, None;
    }

    /** NewPacket: the protocol version, the given type, and the payload's length truncated to 16 bits. */
    constructor NewPacket(typ: byte, pl: PP.Payload)
      ensures View() == PacketView(ProtocolVersion, typ, PP.Length(pl) % U16Limit, Some(pl))
    {
      version := ProtocolVersion;
      this.typ := typ;
      length := PP.Length(pl) % U16Limit;
      payload := Some(pl);
    }

    /** WithPayload: a new packet with this one's version and type and the new payload and its length. */
    method WithPayload(pl: PP.Payload) returns (q: Packet)
      ensures fresh(q)
      ensures q.View() == PacketView(version, typ, PP.Length(pl) % U16Limit, Some(pl))
    {
      q := new Packet.NewPacket(typ, pl);
      q.version := version;
    }

    method Encode() returns (r: Result<seq<byte>, Error>)
      ensures r == EncodeSpec(View())
    {
      if payload.None? {
        return Failure(NilPayload);
      }
      var pl := payload.value;
      if PP.Length(pl) > MaxPayload {
        return Failure(ErrPacketTooLarge);
      }
      var buf: seq<byte> := [];
      buf := buf + [(version * 16) % 256];
      buf := buf + [typ];
      buf := buf + BigEndian16(PP.Length(pl));
      assert buf == Header(version, typ, PP.Length(pl));
      var body := PP.Encode(pl);
      if body.Failure? {
        return Failure(Join(ErrPacketEncode, body.error));
      }
      buf := buf + body.value;
      return Success(buf);
    }

    method Decode(data: seq<byte>) returns (err: Option<Error>)
      modifies this
      ensures (View(), err) == DecodeSpec(old(View()), data)
    {
      if |data| < HeaderLength {
        return Some(Join(ErrPacketDecode, ErrPacketTooSmall));
      }
      var pos := 0;
      version := data[pos];
      pos := pos + 1;
      version := version / 16;
      typ := data[pos];
      pos := pos + 1;
      length := ReadBigEndian16(data[pos], data[pos + 1]);
      if length + HeaderLength > |data| {
        return Some(Join(ErrPacketDecode, ErrPacketIncomplete));
      }
      if payload.None? {
        if TagOf(typ) == Some(Handshake) {
          payload := Some(PP.Handshake(seq(32, _ => 0), false, []));
        } else if TagOf(typ) == Some(HandshakeReply) {
          payload := Some(PP.Reply([]));
        } else {
          return Some(Join(ErrPacketDecode, UnknownPacketType(typ)));
        }
      }
      var (after, e) := PP.Decode(payload.value, data[HeaderLength..HeaderLength + length]);
      payload := Some(after);
      if e.Some? {
        return Some(Join(ErrPacketDecode, e.value));
      }
      return None;
    }
  }
}
