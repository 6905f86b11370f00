/**
 * pkg/utils/types.go: an IPv4 address with its prefix length packed into five bytes, its "a.b.c.d/m" text
 * and the 16-byte net.IP form of its address.
 */
module Utils {
  import opened Bytes
  import opened Wrappers
  import opened Cidr

  /** [4]byte */
  type IPv4 = s: seq<byte> | |s| == 4 witness [0, 0, 0, 0]

  /** [5]byte: the four octets of an IPv4 address, then a prefix length. */
  type IPMask = s: seq<byte> | |s| == 5 witness [0, 0, 0, 0, 0]

  /** Width of an IPv4 mask: the second result of net.IPMask.Size() for every IPv4 network. */
  const IPv4MaskBits: byte := 32

  /** Prefix length given to an address that carries none, as the doc comment of Must2IPMask promises. */
  const DefaultPrefix: byte := 24

  /** IPMask.String: the five bytes as "a.b.c.d/m" in decimal. */
  function String(m: IPMask): (s: seq<byte>)
  {
    Format(m[..4], m[4])
  }

  /** The text of an IPMask parses back to it exactly when its prefix byte is a valid IPv4 prefix length. */
  lemma ParseCIDROfString(m: IPMask)
    ensures ParseCIDR(String(m)) == if m[4] <= 32 then CidrV4(m[..4], m[4]) else CidrError
  {
    ParseCIDROfFormat(m[..4], m[4]);
  }

  /**
   * Must2IPMask as written: the address of a parsable IPv4 CIDR string, followed by the mask WIDTH instead of
   * its prefix length. The width of an IPv4 mask is always 32, so the range check on it never fires. None
   * stands for the panic on anything else, a bare address included.
   */
  function Must2IPMaskAsWritten(addr: seq<byte>): (r: Option<IPMask>)
    ensures r.Some? <==> ParseCIDR(addr).CidrV4?
    ensures r.Some? ==> r.value[..4] == ParseCIDR(addr).ip && r.value[4] == 32
  {
    match ParseCIDR(addr)
    case CidrV4(ip, _) => Some(ip + [IPv4MaskBits])
    case _ => None
  }

  /**
   * The text of an IPMask whose prefix is valid but not 32 does not come back: its prefix is replaced by 32
   * ("192.168.56.1/24" becomes 192.168.56.1 with 32).
   */
  lemma Must2IPMaskAsWrittenDropsPrefix(m: IPMask)
    requires m[4] <= 32
    ensures Must2IPMaskAsWritten(String(m)) == Some(m[..4] + [32])
    ensures m[4] != 32 ==> Must2IPMaskAsWritten(String(m)) != Some(m)
  {
    ParseCIDROfString(m);
    if m[4] != 32 {
      assert (m[..4] + [32])[4] != m[4];
    }
  }

  /**
   * A bare dotted address ("192.168.57.1"), which the doc comment promises to accept with prefix 24, panics
   * as written; the corrected function gives it prefix 24.
   */
  lemma Must2IPMaskOfBareAddress(o: IPv4)
    ensures Must2IPMaskAsWritten(Dotted(o)) == None
    ensures Must2IPMask(Dotted(o)) == Some(o + [DefaultPrefix])
  {
    DigitsAndDotsExclude(Dotted(o), Slash);
    ParseIPOfDotted(o);
  }

  /**
   * Must2IPMask as its doc comment describes it: "a.b.c.d/m" gives the address and m, a bare IPv4 address
   * gives the address and 24, anything else panics (None).
   */
  function Must2IPMask(addr: seq<byte>): (r: Option<IPMask>)
    ensures ParseCIDR(addr).CidrV4? ==> r == Some(ParseCIDR(addr).ip + [ParseCIDR(addr).prefix])
    ensures r.Some? ==> r.value[4] <= 32
  {
    match ParseCIDR(addr)
    case CidrV4(ip, m) => Some(ip + [m])
    case CidrV6(_) => None
    case CidrError =>
      match ParseIP(addr)
      case Some(V4(o)) => Some(o + [DefaultPrefix])
      case _ => None
  }

  /** Round trip: the text of an IPMask with a valid prefix is parsed back to the same five bytes. */
  lemma Must2IPMaskOfString(m: IPMask)
    requires m[4] <= 32
    ensures Must2IPMask(String(m)) == Some(m)
  {
    ParseCIDROfString(m);
    assert m[..4] + [m[4]] == m;
  }

  /** The twelve bytes that put an IPv4 address into the 16-byte form of net.IP. */
  const V4InV6Prefix: seq<byte> := [0, 0, 0, 0, 0, 0, 0, 0, 0, 0, 255, 255]

  /** net.IP.To4: the IPv4 address held in a 16-byte address, if it holds one. */
  function To4(ip: seq<byte>): (r: Option<IPv4>)
    requires |ip| == 16
  {
    if ip[..12] == V4InV6Prefix then Some(ip[12..]) else None
  }

  /** IPMask.toIP: net.IPv4 of the four address bytes; the prefix byte plays no part. */
  function ToIP(m: IPMask): (r: seq<byte>)
    ensures |r| == 16 && To4(r) == Some(m[..4])
  {
    V4InV6Prefix + m[..4]
  }

  /** Two masks with the same address and different prefix lengths give the same net.IP. */
  lemma ToIPIgnoresPrefix(a: IPMask, b: IPMask)
    requires a[..4] == b[..4]
    ensures ToIP(a) == ToIP(b)
  {
  }
}
