/**
 * The payloads of pkg/packet/payload/payload.go, the ones the peer handshake sends: StringPayload,
 * HandshakeInitPayload (the 38-byte record with the address held as an IPMask) and HandshakeReplyPayload
 * (a greeting and a virtual IP that is never transmitted). HandshakeInitPayload is also a class whose
 * MarshalBinary appends to a buffer and whose UnmarshalBinary overwrites its fields through a reader.
 */
module Payload {
  import opened Bytes
  import opened Wrappers
  import opened Errors
  import opened Cidr
  import opened Utils
  import opened HandshakeWire

  datatype Payload =
    | Text(text: seq<byte>)
    | Init(id: Id, virtualIP: IPMask, dhcp: bool)
    | Reply(hello: seq<byte>, virtualIP: IPMask)

  /** Packable.Length */
  function Length(p: Payload): nat
  {
    match p
    case Text(t) => |t|
    case Init(_, _, _) => RecordLength
    case Reply(h, _) => |h|
  }

  /**
   * HandshakeInitPayload.MarshalBinary: ID, DHCP byte, the four address bytes and the prefix, for a virtual IP
   * whose prefix is at most 32; any other prefix is refused as an invalid virtual IP. MarshalFollowsParseCIDR
   * shows this is what going through the virtual IP's text and net.ParseCIDR gives.
   */
  function Marshal(id: Id, virtualIP: IPMask, dhcp: bool): (r: Result<seq<byte>, Error>)
    ensures r.Success? ==> |r.value| == RecordLength && Read(r.value) == Record(id, dhcp, virtualIP[..4], virtualIP[4])
  {
    if virtualIP[4] > 32 then Failure(InvalidVirtualIP(CidrSyntax))
    else
      var rec := Record(id, dhcp, virtualIP[..4], virtualIP[4]);
      ReadOfWrite(rec, []);
      assert Write(rec) + [] == Write(rec);
      Success(Write(rec))
  }

  /**
   * The steps of MarshalBinary: the virtual IP's text is given to net.ParseCIDR. That text always holds a
   * valid IPv4 address, so the outcome depends on the prefix byte alone, the IPv6 case never arises, and the
   * later mask check is unreachable, because net.ParseCIDR has already refused every prefix above 32.
   */
  lemma MarshalFollowsParseCIDR(id: Id, virtualIP: IPMask, dhcp: bool)
    ensures Marshal(id, virtualIP, dhcp) ==
              match ParseCIDR(String(virtualIP))
              case CidrError => Failure(InvalidVirtualIP(CidrSyntax))
              case CidrV6(_) => Failure(OnlyIPv4Supported)
              case CidrV4(ip, maskSize) =>
                if maskSize > 32 then Failure(InvalidMaskSize(maskSize))
                else Success(Write(Record(id, dhcp, ip, maskSize)))
  {
    ParseCIDROfString(virtualIP);
  }

  /**
   * HandshakeInitPayload.UnmarshalBinary as a function of the old field values and the input: fewer than 38
   * bytes change nothing; otherwise ID, DHCP and all five bytes of the virtual IP are overwritten, and only
   * then is a prefix above 32 reported.
   */
  function Unmarshal(before: Payload, data: seq<byte>): (r: (Payload, Option<Error>))
    requires before.Init?
    ensures r.0.Init?
    ensures r.1.None? <==> |data| >= RecordLength && data[37] <= 32
    ensures |data| < RecordLength ==> r == (before, Some(DataTooShort(|data|)))
    ensures |data| >= RecordLength ==>
              r.0 == Init(data[..32], data[33..38], data[32] != 0) &&
              (data[37] > 32 ==> r.1 == Some(InvalidMaskLength(data[37])))
  {
    if |data| < RecordLength then (before, Some(DataTooShort(|data|)))
    else
      var rec := Read(data);
      var virtualIP: IPMask := data[33..38];
      assert virtualIP[4] == rec.prefix;
      var after := Init(rec.id, virtualIP, rec.dhcp);
      if virtualIP[4] > 32 then (after, Some(InvalidMaskLength(virtualIP[4]))) else (after, None)
  }

  /** Packable.Encode */
  function Encode(p: Payload): (r: Result<seq<byte>, Error>)
    ensures r.Success? ==> |r.value| == Length(p)
  {
    match p
    case Text(t) => Success(t)
    case Init(id, virtualIP, dhcp) => Marshal(id, virtualIP, dhcp)
    case Reply(h, _) => Success(h)
  }

  /** Packable.Decode on a payload of the given kind: the payload after the call and the error returned. */
  function Decode(p: Payload, data: seq<byte>): (r: (Payload, Option<Error>))
  {
    match p
    case Text(_) => (Text(data), None)
    case Init(_, _, _) => Unmarshal(p, data)
    case Reply(_, virtualIP) => (Reply(data, virtualIP), None)
  }

  /** Round trip: an init payload whose prefix is valid unmarshals from its own bytes to itself, into any init payload. */
  lemma UnmarshalOfMarshal(id: Id, virtualIP: IPMask, dhcp: bool, before: Payload)
    requires before.Init? && virtualIP[4] <= 32
    ensures Marshal(id, virtualIP, dhcp).Success?
    ensures Unmarshal(before, Marshal(id, virtualIP, dhcp).value) == (Init(id, virtualIP, dhcp), None)
  {
    var d := Marshal(id, virtualIP, dhcp).value;
    ReadOfWrite(Record(id, dhcp, virtualIP[..4], virtualIP[4]), []);
    assert d + [] == d;
    assert d[33..38] == d[33..37] + [d[37]];
    assert virtualIP == virtualIP[..4] + [virtualIP[4]];
  }

  /** Round trip of the string payload: Decode(Encode(s)) == s, and its length is that of its bytes. */
  lemma TextRoundTrip(s: seq<byte>, before: seq<byte>)
    ensures Encode(Text(s)) == Success(s) && Length(Text(s)) == |s|
    ensures Decode(Text(before), Encode(Text(s)).value) == (Text(s), None)
  {
  }

  /**
   * The reply transmits its greeting only: decoding it into a reply payload restores the greeting and keeps
   * the receiver's own virtual IP, whatever the sender's was.
   */
  lemma ReplyCarriesOnlyHello(hello: seq<byte>, sent: IPMask, held: IPMask, before: seq<byte>)
    ensures Decode(Reply(before, held), Encode(Reply(hello, sent)).value) == (Reply(hello, held), None)
  {
  }

  /** HandshakeInitPayload: a node's ID, its virtual IP and prefix, and its DHCP flag. */
  class HandshakeInitPayload {
    var id: Id
    var virtualIP: IPMask
    var dhcp: bool

    function Value(): (p: Payload)
      reads this
      ensures p.Init?
    {
      Init(id, virtualIP, dhcp)
    }

    constructor (id: Id, virtualIP: IPMask, dhcp: bool)
      ensures Value() == Init(id, virtualIP, dhcp)
    {
      this.id := id;
      this.virtualIP := virtualIP;
      this.dhcp := dhcp;
    }

    method MarshalBinary() returns (r: Result<seq<byte>, Error>)
      ensures r == Marshal(id, virtualIP, dhcp)
    {
      var buf: seq<byte> := [];
      buf := buf + id;
      assert buf == id;
      buf := buf + [BoolByte(dhcp)];
      MarshalFollowsParseCIDR(id, virtualIP, dhcp);
      var parsed := ParseCIDR(String(virtualIP));
      if parsed.CidrError? {
        return Failure(InvalidVirtualIP(CidrSyntax));
      }
      if parsed.CidrV6? {
        return Failure(OnlyIPv4Supported);
      }
      buf := buf + parsed.ip;
      var maskSize := parsed.prefix;
      if maskSize > 32 {
        return Failure(InvalidMaskSize(maskSize));
      }
      buf := buf + [maskSize];
      assert buf == Write(Record(id, dhcp, parsed.ip, maskSize));
      return Success(buf);
    }

    method UnmarshalBinary(data: seq<byte>) returns (err: Option<Error>)
      modifies this
      ensures (Value(), err) == Unmarshal(old(Value()), data)
    {
      if |data| < RecordLength {
        return Some(DataTooShort(|data|));
      }
      var pos := 0;
      id := data[pos..pos + 32];
      pos := pos + 32;
      dhcp := data[pos] != 0;
      pos := pos + 1;
      virtualIP := data[pos..pos + 5];
      var maskLen := virtualIP[4];
      if maskLen > 32 {
        return Some(InvalidMaskLength(maskLen));
      }
      return None;
    }
  }
}
