/**
 * internal/core/config.go: the node's configuration and its functional options. An option is a datatype
 * value standing for the closure the With... constructor returns; Config.Apply runs that closure.
 */
module CoreConfig {
  import opened Bytes
  import opened Wrappers
  import opened Cidr
  import Utils

  datatype ConfigOption =
    | WithID(id: seq<byte>)
    | WithVirtualIP(ipStr: seq<byte>)
    | WithFixedPort(port: int)
    | WithTunName(tunName: seq<byte>)
    | WithPublicAddr(addrs: seq<seq<byte>>)

  /** The fields of a Config. */
  datatype Settings = Settings(id: seq<byte>, virtualIP: seq<byte>, udpPort: int, tunName: seq<byte>,
                               peers: seq<seq<byte>>, publicServerAddr: seq<byte>)

  const DefaultPort: int := 6780

  /** "192.168.100.1/24" */
  const DefaultVirtualIP: seq<byte> := Format([192, 168, 100, 1], 24)

  /** The configuration before any option: the random ID, port 6780 and 192.168.100.1/24. */
  function Defaults(randomId: seq<byte>): Settings
  {
    Settings(randomId, DefaultVirtualIP, DefaultPort, [], [], [])
  }

  /** The four bytes of the IPv4 mask of a /prefix network. */
  function MaskByte(bits: int): (b: byte)
  {
    if bits <= 0 then 0
    else if bits >= 8 then 255
    else [128, 192, 224, 240, 248, 252, 254][bits - 1]
  }

  /** "%d" applied to a net.IPMask: the decimal bytes between brackets, separated by spaces. */
  function MaskText(prefix: nat): (s: seq<byte>)
    ensures |s| > 0 && s[0] == 91
  {
    [91] + Decimal(MaskByte(prefix)) + [Space] + Decimal(MaskByte(prefix - 8)) + [Space] +
    Decimal(MaskByte(prefix - 16)) + [Space] + Decimal(MaskByte(prefix - 24)) + [93]
  }

  /**
   * WithVirtualIP's closure as written: IPv4 CIDR text becomes the address and, through "%d", the mask
   * bytes; otherwise a bare address gets "/24"; text that is neither leaves the old value.
   */
  function VirtualIPAsWritten(ipStr: seq<byte>, current: seq<byte>): seq<byte>
  {
    match ParseCIDR(ipStr)
    case CidrV4(o, m) => Dotted(o) + ([Slash] + MaskText(m))
    case _ =>
      match ParseIP(ipStr)
      case Some(V4(o)) => Format(o, Utils.DefaultPrefix)
      case Some(V6(t)) => t + ([Slash] + Decimal(Utils.DefaultPrefix))
      case None => current
  }

  /** As written, IPv4 CIDR text is stored in a form net.ParseCIDR refuses: the part after '/' starts with '['. */
  lemma VirtualIPAsWrittenUnparsable(ipStr: seq<byte>, current: seq<byte>)
    requires ParseCIDR(ipStr).CidrV4?
    ensures ParseCIDR(VirtualIPAsWritten(ipStr, current)) == CidrError
  {
    var o := ParseCIDR(ipStr).ip;
    var m := ParseCIDR(ipStr).prefix;
    assert VirtualIPAsWritten(ipStr, current) == Dotted(o) + ([Slash] + MaskText(m));
    NoPrefixAfterSlash(o, MaskText(m));
  }

  /** An address followed by '/' and text that does not start with a digit is no CIDR. */
  lemma NoPrefixAfterSlash(o: seq<byte>, rest: seq<byte>)
    requires |o| == 4 && |rest| > 0 && !IsDigit(rest[0])
    ensures ParseCIDR(Dotted(o) + ([Slash] + rest)) == CidrError
  {
    DigitsAndDotsExclude(Dotted(o), Slash);
    FirstIndexAt(Dotted(o), Slash, rest);
    var s := Dotted(o) + ([Slash] + rest);
    assert s[..|Dotted(o)|] == Dotted(o);
    assert s[|Dotted(o)| + 1..] == rest;
    ParseIPOfDotted(o);
  }

  /**
   * WithVirtualIP's closure with the prefix length written in decimal, which is what the default
   * "192.168.100.1/24" and the rest of the node expect.
   */
  function VirtualIP(ipStr: seq<byte>, current: seq<byte>): seq<byte>
  {
    match ParseCIDR(ipStr)
    case CidrV4(o, m) => Format(o, m)
    case _ =>
      match ParseIP(ipStr)
      case Some(V4(o)) => Format(o, Utils.DefaultPrefix)
      case Some(V6(t)) => t + ([Slash] + Decimal(Utils.DefaultPrefix))
      case None => current
  }

  /**
   * What WithVirtualIP stores, read back: IPv4 CIDR text parses to the same network, a bare IPv4 address to
   * that address with prefix 24, and text that is neither leaves the old value.
   */
  lemma VirtualIPParsesBack(ipStr: seq<byte>, current: seq<byte>)
    ensures ParseCIDR(ipStr).CidrV4? ==> ParseCIDR(VirtualIP(ipStr, current)) == ParseCIDR(ipStr)
    ensures !ParseCIDR(ipStr).CidrV4? && ParseIP(ipStr).Some? && ParseIP(ipStr).value.V4? ==>
              ParseCIDR(VirtualIP(ipStr, current)) == CidrV4(ParseIP(ipStr).value.octets, 24)
    ensures !ParseCIDR(ipStr).CidrV4? && ParseIP(ipStr).None? ==> VirtualIP(ipStr, current) == current
  {
    match ParseCIDR(ipStr)
    case CidrV4(_, _) => ParseCIDRNormalises(ipStr);
    case _ =>
      match ParseIP(ipStr)
      case Some(V4(o)) => ParseCIDROfFormat(o, 24);
      case _ =>
  }

  /**
   * "10.0.0.1/24" as written becomes "10.0.0.1/[255 255 255 0]", which no longer parses; with the prefix length
   * in decimal it reads back as 10.0.0.1/24.
   */
  lemma VirtualIPExample()
    ensures ParseCIDR(VirtualIPAsWritten(Format([10, 0, 0, 1], 24), DefaultVirtualIP)) == CidrError
    ensures ParseCIDR(VirtualIP(Format([10, 0, 0, 1], 24), DefaultVirtualIP)) == CidrV4([10, 0, 0, 1], 24)
  {
    ParseCIDROfFormat([10, 0, 0, 1], 24);
    VirtualIPAsWrittenUnparsable(Format([10, 0, 0, 1], 24), DefaultVirtualIP);
    VirtualIPParsesBack(Format([10, 0, 0, 1], 24), DefaultVirtualIP);
  }

  /** IPv6 text with "/24" appended is a CIDR net.ParseCIDR accepts. */
  lemma V6WithPrefixParses(t: seq<byte>)
    requires ParseIP(t) == Some(V6(t))
    ensures ParseCIDR(t + ([Slash] + Decimal(24))).CidrV6?
  {
    assert V6Shaped(t);
    FirstIndexAt(t, Slash, Decimal(24));
    var s := t + ([Slash] + Decimal(24));
    assert s[..|t|] == t;
    assert s[|t| + 1..] == Decimal(24);
    ParseDecimalOfDecimal(24);
  }

  /** The virtual IP stays text that net.ParseCIDR accepts, whatever WithVirtualIP is given. */
  lemma VirtualIPKeepsValid(ipStr: seq<byte>, current: seq<byte>)
    requires !ParseCIDR(current).CidrError?
    ensures !ParseCIDR(VirtualIP(ipStr, current)).CidrError?
  {
    VirtualIPParsesBack(ipStr, current);
    if !ParseCIDR(ipStr).CidrV4? && ParseIP(ipStr).Some? && ParseIP(ipStr).value.V6? {
      var t := ParseIP(ipStr).value.text;
      assert t == ipStr;
      V6WithPrefixParses(t);
    }
  }

  /** Config option closures: the guarded assignments of config.go. */
  function ApplySpec(c: Settings, o: ConfigOption): Settings
  {
    match o
    case WithID(id) => if id == [] then c else c.(id := id)
    case WithVirtualIP(ipStr) => c.(virtualIP := VirtualIP(ipStr, c.virtualIP))
    case WithFixedPort(port) => if 0 < port < 65535 then c.(udpPort := port) else c
    case WithTunName(n) => c.(tunName := n)
    case WithPublicAddr(addrs) => c.(peers := addrs)
  }

  /** The options applied left to right. */
  function ApplyAll(c: Settings, opts: seq<ConfigOption>): Settings
    decreases |opts|
  {
    if opts == [] then c else ApplyAll(ApplySpec(c, opts[0]), opts[1..])
  }

  lemma {:induction false} ApplyAllAppend(c: Settings, opts: seq<ConfigOption>, o: ConfigOption)
    ensures ApplyAll(c, opts + [o]) == ApplySpec(ApplyAll(c, opts), o)
    decreases |opts|
  {
    if opts == [] {
      assert [] + [o] == [o];
    } else {
      assert (opts + [o])[1..] == opts[1..] + [o];
      ApplyAllAppend(ApplySpec(c, opts[0]), opts[1..], o);
    }
  }

  /**
   * Each option touches only its own field, and only when its guard holds: WithID("") and a port outside
   * (0, 65535) change nothing. Applying the same option twice is applying it once.
   */
  lemma ApplyFacts(c: Settings, o: ConfigOption)
    ensures o.WithID? && o.id == [] ==> ApplySpec(c, o) == c
    ensures o.WithFixedPort? && !(0 < o.port < 65535) ==> ApplySpec(c, o) == c
    ensures o.WithFixedPort? && 0 < o.port < 65535 ==> ApplySpec(c, o) == c.(udpPort := o.port)
    ensures !o.WithFixedPort? ==> ApplySpec(c, o).udpPort == c.udpPort
    ensures !o.WithID? ==> ApplySpec(c, o).id == c.id
    ensures ApplySpec(ApplySpec(c, o), o) == ApplySpec(c, o)
    ensures ApplySpec(c, o).publicServerAddr == c.publicServerAddr
  {
  }

  /** The last WithID with a non-empty ID decides the ID; with none, the random ID stays. */
  lemma {:induction false} LastIdWins(c: Settings, opts: seq<ConfigOption>)
    ensures var r := ApplyAll(c, opts).id;
            (forall i | 0 <= i < |opts| :: !(opts[i].WithID? && opts[i].id != [])) ==> r == c.id
    ensures forall i | 0 <= i < |opts| && opts[i].WithID? && opts[i].id != [] &&
                       (forall j | i < j < |opts| :: !(opts[j].WithID? && opts[j].id != [])) ::
              ApplyAll(c, opts).id == opts[i].id
    decreases |opts|
  {
    if opts != [] {
      var n := |opts| - 1;
      assert opts == opts[..n] + [opts[n]];
      ApplyAllAppend(c, opts[..n], opts[n]);
      LastIdWins(c, opts[..n]);
      forall i | 0 <= i < |opts| && opts[i].WithID? && opts[i].id != [] &&
                 (forall j | i < j < |opts| :: !(opts[j].WithID? && opts[j].id != []))
        ensures ApplyAll(c, opts).id == opts[i].id
      {
        if i < n {
          assert opts[..n][i] == opts[i];
          assert forall j | i < j < n :: opts[..n][j] == opts[j];
        }
      }
    }
  }

  /** The port stays in (0, 65535) whatever options are applied, starting from the default 6780. */
  lemma {:induction false} PortStaysValid(c: Settings, opts: seq<ConfigOption>)
    requires 0 < c.udpPort < 65535
    ensures 0 < ApplyAll(c, opts).udpPort < 65535
    decreases |opts|
  {
    if opts != [] {
      PortStaysValid(ApplySpec(c, opts[0]), opts[1..]);
    }
  }

  /** Starting from the default, the virtual IP is always text net.ParseCIDR accepts. */
  lemma {:induction false} VirtualIPStaysValid(c: Settings, opts: seq<ConfigOption>)
    requires !ParseCIDR(c.virtualIP).CidrError?
    ensures !ParseCIDR(ApplyAll(c, opts).virtualIP).CidrError?
    decreases |opts|
  {
    if opts != [] {
      if opts[0].WithVirtualIP? {
        VirtualIPKeepsValid(opts[0].ipStr, c.virtualIP);
      }
      VirtualIPStaysValid(ApplySpec(c, opts[0]), opts[1..]);
    }
  }

  /** The defaults hold a valid port and the network 192.168.100.1/24. */
  lemma DefaultsValid(randomId: seq<byte>)
    ensures 0 < Defaults(randomId).udpPort < 65535
    ensures ParseCIDR(Defaults(randomId).virtualIP) == CidrV4([192, 168, 100, 1], 24)
  {
    ParseCIDROfFormat([192, 168, 100, 1], 24);
  }

  class Config {
    var id: seq<byte>
    var virtualIP: seq<byte>
    var udpPort: int
    var tunName: seq<byte>
    var peers: seq<seq<byte>>
    var publicServerAddr: seq<byte>

    function Value(): Settings
      reads this
    {
      Settings(id, virtualIP, udpPort, tunName, peers, publicServerAddr)
    }

    /** Runs the closure of one option on this configuration. */
    method Apply(o: ConfigOption)
      modifies this
      ensures Value() == ApplySpec(old(Value()), o)
    {
      match o {
        case WithID(newId) =>
          if newId == [] {
            return;
          }
          id := newId;
        case WithVirtualIP(ipStr) =>
          var parsed := ParseCIDR(ipStr);
          if parsed.CidrV4? {
            virtualIP := Format(parsed.ip, parsed.prefix);
            return;
          }
          var ip := ParseIP(ipStr);
          if ip.Some? {
            match ip.value {
              case V4(o) => virtualIP := Format(o, Utils.DefaultPrefix);
              case V6(t) => virtualIP := t + ([Slash] + Decimal(Utils.DefaultPrefix));
            }
            return;
          }
        case WithFixedPort(port) =>
          if port > 0 && port < 65535 {
            udpPort := port;
          }
        case WithTunName(n) =>
          tunName := n;
        case WithPublicAddr(addrs) =>
          peers := addrs;
      }
    }

    /** NewConfig: the defaults with the random ID, then the options in order. */
    constructor (randomId: seq<byte>, opts: seq<ConfigOption>)
      ensures Value() == ApplyAll(Defaults(randomId), opts)
    {
      id := randomId;
      virtualIP := DefaultVirtualIP;
      udpPort := DefaultPort;
      tunName := [];
      peers := [];
      publicServerAddr := [];
      new;
      var i := 0;
      while i < |opts|
        invariant 0 <= i <= |opts|
        invariant Value() == ApplyAll(Defaults(randomId), opts[..i])
      {
        ApplyAllAppend(Defaults(randomId), opts[..i], opts[i]);
        assert opts[..i + 1] == opts[..i] + [opts[i]];
        Apply(opts[i]);
        i := i + 1;
      }
      assert opts[..i] == opts;
    }
  }
}
