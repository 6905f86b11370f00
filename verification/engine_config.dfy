/**
 * internal/engine/config.go: the engine's configuration and its functional options. Unlike the core's,
 * WithVirtualIP stores its text as given and the default virtual IP is empty.
 */
module EngineConfig {
  import opened Bytes

  datatype ConfigOption =
    | WithID(id: seq<byte>)
    | WithVirtualIP(ip: seq<byte>)
    | WithFixedPort(port: int)
    | WithTunName(tunName: seq<byte>)
    | WithPublicAddr(addrs: seq<seq<byte>>)

  /** The fields of a Config. */
  datatype Settings = Settings(id: seq<byte>, virtualIP: seq<byte>, mixedPort: int, tunName: seq<byte>,
                               peers: seq<seq<byte>>, publicServerAddr: seq<byte>)

  const DefaultPort: int := 6780

  /** The configuration before any option: the random ID and port 6780, everything else empty. */
  function Defaults(randomId: seq<byte>): Settings
  {
    Settings(randomId, [], DefaultPort, [], [], [])
  }

  /** Config option closures: an empty ID and a port outside (0, 65535) are ignored, the rest assign. */
  function ApplySpec(c: Settings, o: ConfigOption): Settings
  {
    match o
    case WithID(id) => if id == [] then c else c.(id := id)
    case WithVirtualIP(ip) => c.(virtualIP := ip)
    case WithFixedPort(port) => if 0 < port < 65535 then c.(mixedPort := port) else c
    case WithTunName(n) => c.(tunName := n)
    case WithPublicAddr(addrs) => c.(peers := addrs)
  }

  /** The options applied left to right. */
  function ApplyAll(c: Settings, opts: seq<ConfigOption>): Settings
    decreases |opts|
  {
    if opts == [] then c else ApplyAll(ApplySpec(c, opts[0]), opts[1..])
  }

  lemma {:induction false} ApplyAllAppend(c: Settings, opts: seq<ConfigOption>, o: ConfigOption)
    ensures ApplyAll(c, opts + [o]) == ApplySpec(ApplyAll(c, opts), o)
    decreases |opts|
  {
    if opts == [] {
      assert [] + [o] == [o];
    } else {
      assert (opts + [o])[1..] == opts[1..] + [o];
      ApplyAllAppend(ApplySpec(c, opts[0]), opts[1..], o);
    }
  }

  /**
   * Each option touches only its own field, and only when its guard holds; applying the same option twice is
   * applying it once.
   */
  lemma ApplyFacts(c: Settings, o: ConfigOption)
    ensures o.WithID? && o.id == [] ==> ApplySpec(c, o) == c
    ensures o.WithFixedPort? && !(0 < o.port < 65535) ==> ApplySpec(c, o) == c
    ensures o.WithFixedPort? && 0 < o.port < 65535 ==> ApplySpec(c, o) == c.(mixedPort := o.port)
    ensures o.WithVirtualIP? ==> ApplySpec(c, o) == c.(virtualIP := o.ip)
    ensures !o.WithFixedPort? ==> ApplySpec(c, o).mixedPort == c.mixedPort
    ensures !o.WithID? ==> ApplySpec(c, o).id == c.id
    ensures ApplySpec(ApplySpec(c, o), o) == ApplySpec(c, o)
    ensures ApplySpec(c, o).publicServerAddr == c.publicServerAddr
  {
  }

  /** The last WithVirtualIP decides the virtual IP; with none, it stays as it was. */
  lemma {:induction false} LastVirtualIPWins(c: Settings, opts: seq<ConfigOption>)
    ensures (forall i | 0 <= i < |opts| :: !opts[i].WithVirtualIP?) ==> ApplyAll(c, opts).virtualIP == c.virtualIP
    ensures forall i | 0 <= i < |opts| && opts[i].WithVirtualIP? &&
                       (forall j | i < j < |opts| :: !opts[j].WithVirtualIP?) ::
              ApplyAll(c, opts).virtualIP == opts[i].ip
    decreases |opts|
  {
    if opts != [] {
      var n := |opts| - 1;
      assert opts == opts[..n] + [opts[n]];
      ApplyAllAppend(c, opts[..n], opts[n]);
      LastVirtualIPWins(c, opts[..n]);
      forall i | 0 <= i < |opts| && opts[i].WithVirtualIP? && (forall j | i < j < |opts| :: !opts[j].WithVirtualIP?)
        ensures ApplyAll(c, opts).virtualIP == opts[i].ip
      {
        if i < n {
          assert opts[..n][i] == opts[i];
          assert forall j | i < j < n :: opts[..n][j] == opts[j];
        }
      }
    }
  }

  /** The mixed port stays in (0, 65535) whatever options are applied to a valid one, as 6780 is. */
  lemma {:induction false} PortStaysValid(c: Settings, opts: seq<ConfigOption>)
    requires 0 < c.mixedPort < 65535
    ensures 0 < ApplyAll(c, opts).mixedPort < 65535
    decreases |opts|
  {
    if opts != [] {
      PortStaysValid(ApplySpec(c, opts[0]), opts[1..]);
    }
  }

  class Config {
    var id: seq<byte>
    var virtualIP: seq<byte>
    var mixedPort: int
    var tunName: seq<byte>
    var peers: seq<seq<byte>>
    var publicServerAddr: seq<byte>

    function Value(): Settings
      reads this
    {
      Settings(id, virtualIP, mixedPort, tunName, peers, publicServerAddr)
    }

    /** Runs the closure of one option on this configuration. */
    method Apply(o: ConfigOption)
      modifies this
      ensures Value() == ApplySpec(old(Value()), o)
    {
      match o {
        case WithID(newId) =>
          if newId == [] {
            return;
          }
          id := newId;
        case WithVirtualIP(ip) =>
          virtualIP := ip;
        case WithFixedPort(port) =>
          if port > 0 && port < 65535 {
            mixedPort := port;
          }
        case WithTunName(n) =>
          tunName := n;
        case WithPublicAddr(addrs) =>
          peers := addrs;
      }
    }

    /** NewConfig: the defaults with the random ID, then the options in order. */
    constructor (randomId: seq<byte>, opts: seq<ConfigOption>)
      ensures Value() == ApplyAll(Defaults(randomId), opts)
    {
      id := randomId;
      virtualIP := [];
      mixedPort := DefaultPort;
      tunName := [];
      peers := [];
      publicServerAddr := [];
      new;
      var i := 0;
      while i < |opts|
        invariant 0 <= i <= |opts|
        invariant Value() == ApplyAll(Defaults(randomId), opts[..i])
      {
        ApplyAllAppend(Defaults(randomId), opts[..i], opts[i]);
        assert opts[..i + 1] == opts[..i] + [opts[i]];
        Apply(opts[i]);
        i := i + 1;
      }
      assert opts[..i] == opts;
    }
  }
}
