/**
 * internal/peer/handshake.go: the peer package's own copy of PayloadHandshake. It reads exactly like the one
 * of pkg/packet/payload.go (PacketPayload.Unmarshal states what it does); it marshals the same 38 bytes, but
 * every marshal failure is joined with ErrPacketEncode.
 */
module PeerHandshake {
  import opened Bytes
  import opened Wrappers
  import opened Errors
  import opened Cidr
  import opened HandshakeWire
  import PP = PacketPayload

  /** PayloadHandshake.MarshalBinary of internal/peer/handshake.go. */
  function Marshal(id: Id, dhcp: bool, ipCidr: seq<byte>): (r: Result<seq<byte>, Error>)
    ensures r.Success? <==> ParseCIDR(ipCidr).CidrV4?
    ensures r.Success? ==> |r.value| == RecordLength
    ensures r.Success? ==> Read(r.value) == Record(id, dhcp, ParseCIDR(ipCidr).ip, ParseCIDR(ipCidr).prefix)
    ensures r.Failure? ==> Is(r.error, ErrPacketEncode)
    ensures ParseCIDR(ipCidr).CidrV6? ==> Is(r.error, OnlyIPv4Supported)
  {
    match ParseCIDR(ipCidr)
    case CidrError => Failure(Join(ErrPacketEncode, CidrSyntax))
    case CidrV6(_) => Failure(Join(ErrPacketEncode, OnlyIPv4Supported))
    case CidrV4(ip, m) =>
      ReadOfWrite(Record(id, dhcp, ip, m), []);
      assert Write(Record(id, dhcp, ip, m)) + [] == Write(Record(id, dhcp, ip, m));
      Success(Write(Record(id, dhcp, ip, m)))
  }

  /** The peer package's marshal produces the very bytes of the packet package's, and fails on the same inputs. */
  lemma MarshalAgrees(id: Id, dhcp: bool, ipCidr: seq<byte>)
    ensures Marshal(id, dhcp, ipCidr).Success? <==> PP.Marshal(id, dhcp, ipCidr).Success?
    ensures Marshal(id, dhcp, ipCidr).Success? ==> Marshal(id, dhcp, ipCidr) == PP.Marshal(id, dhcp, ipCidr)
  {
  }

  /** Every unmarshal failure says "packet decode error" for short input and "invalid mask length" for a bad prefix. */
  lemma UnmarshalErrors(before: PP.Payload, data: seq<byte>)
    requires before.Handshake?
    ensures var err := PP.Unmarshal(before, data).1;
            (|data| < RecordLength ==> err.Some? && Is(err.value, ErrPacketDecode)) &&
            (|data| >= RecordLength && data[37] > 32 ==> err.Some? && Is(err.value, InvalidMaskLength(data[37])))
  {
  }

  /** handshake_test.go's valid record: ID "helloworld", DHCP byte 1, 192.168.1.1, prefix 24. */
  function SampleRecord(): (d: seq<byte>)
  {
    var id := [104, 101, 108, 108, 111, 119, 111, 114, 108, 100] + seq(22, _ => 0);
    id + [1, 192, 168, 1, 1, 24]
  }

  /** The sample decodes to that ID, DHCP true and the CIDR text of 192.168.1.1 with prefix 24; with prefix 33 it fails. */
  lemma SampleRecordDecodes(before: PP.Payload)
    requires before.Handshake?
    ensures PP.Unmarshal(before, SampleRecord()) ==
            (PP.Handshake(SampleRecord()[..32], true, Format([192, 168, 1, 1], 24)), None)
    ensures PP.Unmarshal(before, SampleRecord()[..37] + [33]).1 == Some(Join(ErrPacketEncode, InvalidMaskLength(33)))
  {
    var d := SampleRecord();
    assert |d| == 38 && d[32] == 1 && d[37] == 24;
    assert d[33..37] == [192, 168, 1, 1];
    var e := d[..37] + [33];
    assert |e| == 38 && e[37] == 33;
  }

  /** PayloadHandshake of internal/peer/handshake.go. */
  class PayloadHandshake {
    var id: Id
    var dhcp: bool
    var ipCidr: seq<byte>

    function Value(): (p: PP.Payload)
      reads this
      ensures p.Handshake?
    {
      PP.Handshake(id, dhcp, ipCidr)
    }

    /** `var payload PayloadHandshake`: every field zero. */
    constructor ()
      ensures Value() == PP.Handshake(seq(32, _ => 0), false, [])
    {
      id := seq(32, _ => 0);
      dhcp := false;
      ipCidr := [];
    }

    method MarshalBinary() returns (r: Result<seq<byte>, Error>)
      ensures r == Marshal(id, dhcp, ipCidr)
    {
      var buf: seq<byte> := [];
      buf := buf + id;
      assert buf == id;
      buf := buf + [BoolByte(dhcp)];
      var parsed := ParseCIDR(ipCidr);
      if parsed.CidrError? {
        return Failure(Join(ErrPacketEncode, CidrSyntax));
      }
      if parsed.CidrV6? {
        return Failure(Join(ErrPacketEncode, OnlyIPv4Supported));
      }
      buf := buf + parsed.ip;
      var maskSize := parsed.prefix;
      buf := buf + [maskSize];
      return Success(buf);
    }

    method UnmarshalBinary(data: seq<byte>) returns (err: Option<Error>)
      modifies this
      ensures (Value(), err) == PP.Unmarshal(old(Value()), data)
    {
      if |data| < RecordLength {
        return Some(Join(ErrPacketDecode, ErrPacketTooSmall));
      }
      var pos := 0;
      id := data[pos..pos + 32];
      pos := pos + 32;
      dhcp := data[pos] != 0;
      pos := pos + 1;
      var ipBytes := data[pos..pos + 4];
      pos := pos + 4;
      var maskLen := data[pos];
      if maskLen > 32 {
        return Some(Join(ErrPacketEncode, InvalidMaskLength(maskLen)));
      }
      ipCidr := Format(ipBytes, maskLen);
      return None;
    }
  }

  /** Decode: a new payload, filled by UnmarshalBinary, is returned together with its error, never nil. */
  method Decode(data: seq<byte>) returns (p: PayloadHandshake, err: Option<Error>)
    ensures fresh(p)
    ensures (p.Value(), err) == PP.Unmarshal(PP.Handshake(seq(32, _ => 0), false, []), data)
  {
    p := new PayloadHandshake();
    err := p.UnmarshalBinary(data);
  }
}
