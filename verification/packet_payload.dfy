/**
 * The payloads of pkg/packet/payload.go: StringPayload, PayloadHandshake (the 38-byte record with the
 * address held as CIDR text) and HandshakeReplyPayload. A packet holds one of them as a Payload value;
 * PayloadHandshake is also a class, whose MarshalBinary appends to a buffer and whose UnmarshalBinary
 * overwrites its fields through a reader cursor.
 */
module PacketPayload {
  import opened Bytes
  import opened Wrappers
  import opened Errors
  import opened Cidr
  import opened HandshakeWire

  datatype Payload =
    | Text(text: seq<byte>)
    | Handshake(id: Id, dhcp: bool, ipCidr: seq<byte>)
    | Reply(hello: seq<byte>)

  /** Packable.Length */
  function Length(p: Payload): nat
  {
    match p
    case Text(t) => |t|
    case Handshake(_, _, _) => RecordLength
    case Reply(h) => |h|
  }

  /**
   * PayloadHandshake.MarshalBinary. The address and prefix come from net.ParseCIDR of the CIDR text;
   * the prefix is at most 32, so the check that it fits a byte never fires.
   */
  function Marshal(id: Id, dhcp: bool, ipCidr: seq<byte>): (r: Result<seq<byte>, Error>)
    ensures r.Success? <==> ParseCIDR(ipCidr).CidrV4?
    ensures r.Success? ==> |r.value| == RecordLength
    ensures r.Success? ==> Read(r.value) == Record(id, dhcp, ParseCIDR(ipCidr).ip, ParseCIDR(ipCidr).prefix)
    ensures ParseCIDR(ipCidr).CidrError? ==> r == Failure(InvalidIPCidr(CidrSyntax))
    ensures ParseCIDR(ipCidr).CidrV6? ==> r == Failure(OnlyIPv4Supported)
  {
    match ParseCIDR(ipCidr)
    case CidrError => Failure(InvalidIPCidr(CidrSyntax))
    case CidrV6(_) => Failure(OnlyIPv4Supported)
    case CidrV4(ip, m) =>
      ReadOfWrite(Record(id, dhcp, ip, m), []);
      assert Write(Record(id, dhcp, ip, m)) + [] == Write(Record(id, dhcp, ip, m));
      Success(Write(Record(id, dhcp, ip, m)))
  }

  /**
   * PayloadHandshake.UnmarshalBinary as a function of the old field values and the input. Fewer than 38
   * bytes change nothing; otherwise ID and DHCP are overwritten before the prefix is checked, and only a
   * prefix of at most 32 replaces the CIDR text, with the address exactly as received.
   */
  function Unmarshal(before: Payload, data: seq<byte>): (r: (Payload, Option<Error>))
    requires before.Handshake?
    ensures r.0.Handshake?
    ensures r.1.None? <==> |data| >= RecordLength && data[37] <= 32
    ensures |data| < RecordLength ==> r.0 == before && r.1 == Some(Join(ErrPacketDecode, ErrPacketTooSmall))
    ensures |data| >= RecordLength ==> r.0.id == data[..32] && r.0.dhcp == (data[32] != 0)
    ensures |data| >= RecordLength && data[37] > 32 ==>
              r.0.ipCidr == before.ipCidr && r.1 == Some(Join(ErrPacketEncode, InvalidMaskLength(data[37])))
    ensures r.1.None? ==> r.0.ipCidr == Format(data[33..37], data[37])
  {
    if |data| < RecordLength then (before, Some(Join(ErrPacketDecode, ErrPacketTooSmall)))
    else
      var rec := Read(data);
      if rec.prefix > 32 then (Handshake(rec.id, rec.dhcp, before.ipCidr), Some(Join(ErrPacketEncode, InvalidMaskLength(rec.prefix))))
      else
        (Handshake(rec.id, rec.dhcp, Format(rec.ip, rec.prefix)), None)
  }

  /** The CIDR text a successful unmarshal stores parses back to the address and prefix of the record. */
  lemma UnmarshalCidrParses(before: Payload, data: seq<byte>)
    requires before.Handshake?
    ensures var r := Unmarshal(before, data);
            r.1.None? ==> ParseCIDR(r.0.ipCidr) == CidrV4(data[33..37], data[37])
  {
    if |data| >= RecordLength && data[37] <= 32 {
      ParseCIDROfFormat(data[33..37], data[37]);
    }
  }

  /** Packable.Encode */
  function Encode(p: Payload): (r: Result<seq<byte>, Error>)
    ensures r.Success? ==> |r.value| == Length(p)
  {
    match p
    case Text(t) => Success(t)
    case Handshake(id, dhcp, ipCidr) => Marshal(id, dhcp, ipCidr)
    case Reply(h) => Success(h)
  }

  /** Packable.Decode on a payload of the given kind: the payload after the call and the error returned. */
  function Decode(p: Payload, data: seq<byte>): (r: (Payload, Option<Error>))
    ensures SameKind(r.0, p)
  {
    match p
    case Text(_) => (Text(data), None)
    case Handshake(_, _, _) => Unmarshal(p, data)
    case Reply(_) => (Reply(data), None)
  }

  predicate SameKind(a: Payload, b: Payload)
  {
    (a.Text? && b.Text?) || (a.Handshake? && b.Handshake?) || (a.Reply? && b.Reply?)
  }

  /**
   * Round trip of the handshake record: what MarshalBinary produces, followed by any bytes, unmarshals into
   * any handshake payload without error, with the same ID and DHCP flag, and to CIDR text that marshals to the
   * same bytes again.
   */
  lemma UnmarshalOfMarshal(id: Id, dhcp: bool, ipCidr: seq<byte>, before: Payload, rest: seq<byte>)
    requires before.Handshake? && Marshal(id, dhcp, ipCidr).Success?
    ensures var r := Unmarshal(before, Marshal(id, dhcp, ipCidr).value + rest);
            r.1.None? && r.0.id == id && r.0.dhcp == dhcp &&
            Marshal(r.0.id, r.0.dhcp, r.0.ipCidr) == Marshal(id, dhcp, ipCidr)
  {
    var c := ParseCIDR(ipCidr);
    var rec := Record(id, dhcp, c.ip, c.prefix);
    ReadOfWrite(rec, rest);
    ReadOfWrite(rec, []);
    assert Write(rec) + [] == Write(rec);
    ParseCIDROfFormat(c.ip, c.prefix);
  }

  /** For a CIDR string that is already in canonical form the handshake payload comes back unchanged. */
  lemma UnmarshalOfMarshalCanonical(ip: seq<byte>, prefix: nat, id: Id, dhcp: bool, before: Payload)
    requires |ip| == 4 && prefix <= 32 && before.Handshake?
    ensures Marshal(id, dhcp, Format(ip, prefix)).Success?
    ensures Unmarshal(before, Marshal(id, dhcp, Format(ip, prefix)).value) == (Handshake(id, dhcp, Format(ip, prefix)), None)
  {
    ParseCIDROfFormat(ip, prefix);
    var d := Marshal(id, dhcp, Format(ip, prefix)).value;
    ReadOfWrite(Record(id, dhcp, ip, prefix), []);
    assert d + [] == d;
  }

  /** Decoding what Encode produced into a payload of the same kind succeeds and re-encodes to the same bytes. */
  lemma DecodeOfEncode(p: Payload, before: Payload)
    requires SameKind(p, before) && Encode(p).Success?
    ensures Decode(before, Encode(p).value).1.None?
    ensures Encode(Decode(before, Encode(p).value).0) == Encode(p)
    ensures !p.Handshake? ==> Decode(before, Encode(p).value).0 == p
  {
    if p.Handshake? {
      UnmarshalOfMarshal(p.id, p.dhcp, p.ipCidr, before, []);
      assert Encode(p).value + [] == Encode(p).value;
    }
  }

  /** PayloadHandshake: a node's ID, its DHCP flag and its address as CIDR text. */
  class PayloadHandshake {
    var id: Id
    var dhcp: bool
    var ipCidr: seq<byte>

    function Value(): (p: Payload)
      reads this
      ensures p.Handshake?
    {
      Handshake(id, dhcp, ipCidr)
    }

    /** new(PayloadHandshake): every field zero. */
    constructor ()
      ensures Value() == Handshake(seq(32, _ => 0), false, [])
    {
      id := seq(32, _ => 0);
      dhcp := false;
      ipCidr := [];
    }

    method MarshalBinary() returns (r: Result<seq<byte>, Error>)
      ensures r == Marshal(id, dhcp, ipCidr)
    {
      var buf: seq<byte> := [];
      buf := buf + id;
      assert buf == id;
      buf := buf + [BoolByte(dhcp)];
      var parsed := ParseCIDR(ipCidr);
      if parsed.CidrError? {
        return Failure(InvalidIPCidr(CidrSyntax));
      }
      if parsed.CidrV6? {
        return Failure(OnlyIPv4Supported);
      }
      buf := buf + parsed.ip;
      var maskSize := parsed.prefix;
      buf := buf + [maskSize];
      return Success(buf);
    }

    method UnmarshalBinary(data: seq<byte>) returns (err: Option<Error>)
      modifies this
      ensures (Value(), err) == Unmarshal(old(Value()), data)
    {
      if |data| < RecordLength {
        return Some(Join(ErrPacketDecode, ErrPacketTooSmall));
      }
      var pos := 0;
      id := data[pos..pos + 32];
      pos := pos + 32;
      dhcp := data[pos] != 0;
      pos := pos + 1;
      var ipBytes := data[pos..pos + 4];
      pos := pos + 4;
      var maskLen := data[pos];
      if maskLen > 32 {
        return Some(Join(ErrPacketEncode, InvalidMaskLength(maskLen)));
      }
      ipCidr := Format(ipBytes, maskLen);
      return None;
    }
  }
}
