/**
 * The 38-byte handshake record shared by the three handshake payloads (pkg/packet/payload.go,
 * pkg/packet/payload/payload.go, internal/peer/handshake.go): a 32-byte node ID, one DHCP byte, the four
 * octets of an IPv4 address and a prefix length in the sense of section 3.1 of RFC 4632.
 */
module HandshakeWire {
  import opened Bytes
  import opened Utils

  /** [32]byte */
  type Id = s: seq<byte> | |s| == 32 witness seq(32, _ => 0)

  /** 32 + 1 + 5 */
  const RecordLength: nat := 38

  datatype Record = Record(id: Id, dhcp: bool, ip: IPv4, prefix: byte)

  /** binary.Write of a bool: one byte, 1 for true and 0 for false. */
  function BoolByte(b: bool): byte
  {
    if b then 1 else 0
  }

  /** The bytes MarshalBinary appends, in order: ID, DHCP, address, prefix. */
  function Write(r: Record): (data: seq<byte>)
    ensures |data| == RecordLength
  {
    r.id + [BoolByte(r.dhcp)] + r.ip + [r.prefix]
  }

  /**
   * What UnmarshalBinary's reader takes from the first 38 bytes: bytes 0-31, byte 32 (binary.Read of a bool:
   * any nonzero byte is true), bytes 33-36 and byte 37.
   */
  function Read(data: seq<byte>): Record
    requires |data| >= RecordLength
  {
    Record(data[..32], data[32] != 0, data[33..37], data[37])
  }

  /** Reading what was written gives the record back, whatever bytes follow it. */
  lemma ReadOfWrite(r: Record, rest: seq<byte>)
    ensures Read(Write(r) + rest) == r
  {
    var d := Write(r) + rest;
    assert d[..32] == r.id;
    assert d[33..37] == r.ip;
  }

  /** Only the first 38 bytes are read. */
  lemma ReadIgnoresTrailing(data: seq<byte>, rest: seq<byte>)
    requires |data| >= RecordLength
    ensures Read(data + rest) == Read(data)
  {
    assert (data + rest)[..32] == data[..32];
    assert (data + rest)[33..37] == data[33..37];
  }
}
