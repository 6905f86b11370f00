/**
 * The part of Go's net package the core depends on: net.ParseCIDR, net.ParseIP (through netip.ParseAddr)
 * and the dotted-quad text of an IPv4 address. IPv4 text is parsed exactly as netip does it (four
 * decimal fields, no leading zero, none above 255; a prefix of decimal digits not above 32). IPv6 text is
 * not parsed: an address whose family marker is ':' and that holds only hex digits, ':' and '.' is taken
 * to be a valid IPv6 address.
 */
module Cidr {
  import opened Bytes
  import opened Wrappers

  datatype Addr = V4(octets: seq<byte>) | V6(text: seq<byte>)

  datatype CidrResult = CidrError | CidrV4(ip: seq<byte>, prefix: nat) | CidrV6(text: seq<byte>)

  /** Index of the first c in s. */
  function FirstIndex(s: seq<byte>, c: byte): (r: Option<nat>)
    ensures r.None? <==> !Contains(s, c)
    ensures r.Some? ==> r.value < |s| && s[r.value] == c && forall j | 0 <= j < r.value :: s[j] != c
  {
    if |s| == 0 then None
    else if s[0] == c then Some(0)
    else match FirstIndex(s[1..], c)
      case None => None
      case Some(i) => Some(i + 1)
  }

  lemma FirstIndexAt(a: seq<byte>, c: byte, b: seq<byte>)
    requires !Contains(a, c)
    ensures FirstIndex(a + ([c] + b), c) == Some(|a|)
  {
    var s := a + ([c] + b);
    assert s[|a|] == c;
  }

  /** strings.Split(s, string(sep)) */
  function Split(s: seq<byte>, sep: byte): (r: seq<seq<byte>>)
    ensures |r| > 0
    decreases |s|
  {
    match FirstIndex(s, sep)
    case None => [s]
    case Some(i) => [s[..i]] + Split(s[i + 1..], sep)
  }

  lemma SplitAt(a: seq<byte>, sep: byte, b: seq<byte>)
    requires !Contains(a, sep)
    ensures Split(a + ([sep] + b), sep) == [a] + Split(b, sep)
  {
    FirstIndexAt(a, sep, b);
    var s := a + ([sep] + b);
    assert s[..|a|] == a && s[|a| + 1..] == b;
  }

  predicate DigitsAndDots(s: seq<byte>) {
    forall i | 0 <= i < |s| :: IsDigit(s[i]) || s[i] == Dot
  }

  /** One field of a dotted quad, as netip's parseIPv4 accepts it. */
  function ParseOctet(f: seq<byte>): (r: Option<byte>)
    ensures r.Some? ==> f == Decimal(r.value)
  {
    if |f| == 0 || !AllDigits(f) || (|f| > 1 && f[0] == Zero) then None
    else if ParseDecimal(f) > 255 then None
    else
      DecimalOfParse(f);
      Some(ParseDecimal(f))
  }

  /** A digit string without a leading zero is the decimal rendering of its own value. */
  lemma {:induction false} DecimalOfParse(f: seq<byte>)
    requires 0 < |f| && AllDigits(f) && (|f| > 1 ==> f[0] != Zero)
    ensures Decimal(ParseDecimal(f)) == f
  {
    if |f| > 1 {
      var init := f[..|f| - 1];
      DecimalOfParse(init);
      ParseDecimalPositive(init);
      var n := ParseDecimal(f);
      assert n / 10 == ParseDecimal(init) && n % 10 == f[|f| - 1] - Zero;
    }
  }

  lemma {:induction false} ParseDecimalPositive(f: seq<byte>)
    requires 0 < |f| && AllDigits(f) && f[0] != Zero
    ensures ParseDecimal(f) >= 1
  {
    if |f| > 1 {
      ParseDecimalPositive(f[..|f| - 1]);
    }
  }

  lemma ParseOctetOfDecimal(x: byte)
    ensures ParseOctet(Decimal(x)) == Some(x)
  {
    ParseDecimalOfDecimal(x);
  }

  function ParseIPv4(s: seq<byte>): (r: Option<seq<byte>>)
    ensures r.Some? ==> |r.value| == 4
  {
    var fields := Split(s, Dot);
    if |fields| != 4 then None
    else match (ParseOctet(fields[0]), ParseOctet(fields[1]), ParseOctet(fields[2]), ParseOctet(fields[3]))
      case (Some(a), Some(b), Some(c), Some(d)) => Some([a, b, c, d])
      case _ => None
  }

  /** The first '.', ':' or '%' in s: netip.ParseAddr picks the address family by it. */
  function FamilyMarker(s: seq<byte>): Option<byte>
  {
    if |s| == 0 then None
    else if s[0] == Dot || s[0] == Colon || s[0] == Percent then Some(s[0])
    else FamilyMarker(s[1..])
  }

  lemma {:induction false} FamilyMarkerSkipsDigits(a: seq<byte>, rest: seq<byte>)
    requires AllDigits(a)
    ensures FamilyMarker(a + rest) == FamilyMarker(rest)
  {
    if |a| > 0 {
      assert (a + rest)[0] == a[0] && IsDigit(a[0]);
      assert (a + rest)[1..] == a[1..] + rest;
      FamilyMarkerSkipsDigits(a[1..], rest);
    } else {
      assert a + rest == rest;
    }
  }

  predicate IsHexDigit(b: byte) {
    IsDigit(b) || 65 <= b <= 70 || 97 <= b <= 102
  }

  /** Stand-in for IPv6 text parsing: only hex digits, ':' and '.'. */
  predicate V6Shaped(s: seq<byte>) {
    forall i | 0 <= i < |s| :: IsHexDigit(s[i]) || s[i] == Colon || s[i] == Dot
  }

  /** netip.ParseAddr without zones, as net.ParseIP uses it. */
  function ParseAddr(s: seq<byte>): (r: Option<Addr>)
    ensures r.Some? && r.value.V4? ==> |r.value.octets| == 4
  {
    match FamilyMarker(s)
    case Some(m) =>
      if m == Dot then
        match ParseIPv4(s)
        case Some(o) => Some(V4(o))
        case None => None
      else if m == Colon && V6Shaped(s) then Some(V6(s))
      else None
    case None => None
  }

  /** net.ParseIP: nil (None) for text that is no address. */
  function ParseIP(s: seq<byte>): Option<Addr>
  {
    ParseAddr(s)
  }

  /** The prefix length of a CIDR string: digits only, at most bits. */
  function ParsePrefix(mask: seq<byte>, bits: nat): (r: Option<nat>)
    ensures r.Some? ==> r.value <= bits
  {
    if |mask| == 0 || !AllDigits(mask) || ParseDecimal(mask) > bits then None else Some(ParseDecimal(mask))
  }

  /** net.ParseCIDR: the address before the first '/' and a prefix length after it. */
  function ParseCIDR(s: seq<byte>): (r: CidrResult)
    ensures r.CidrV4? ==> |r.ip| == 4 && r.prefix <= 32
  {
    match FirstIndex(s, Slash)
    case None => CidrError
    case Some(i) =>
      match ParseAddr(s[..i])
      case None => CidrError
      case Some(V4(o)) =>
        (match ParsePrefix(s[i + 1..], 32)
         case Some(m) => CidrV4(o, m)
         case None => CidrError)
      case Some(V6(t)) =>
        (match ParsePrefix(s[i + 1..], 128)
         case Some(_) => CidrV6(t)
         case None => CidrError)
  }

  /** net.IP.String() of an IPv4 address: "a.b.c.d" in decimal. */
  function Dotted(o: seq<byte>): (s: seq<byte>)
    requires |o| == 4
    ensures DigitsAndDots(s)
  {
    Decimal(o[0]) + ([Dot] + (Decimal(o[1]) + ([Dot] + (Decimal(o[2]) + ([Dot] + Decimal(o[3]))))))
  }

  /** "a.b.c.d/m", the text of an IPv4 network with its prefix length. */
  function Format(o: seq<byte>, prefix: nat): seq<byte>
    requires |o| == 4
  {
    Dotted(o) + ([Slash] + Decimal(prefix))
  }

  lemma DigitsAndDotsExclude(s: seq<byte>, c: byte)
    requires DigitsAndDots(s) && !IsDigit(c) && c != Dot
    ensures !Contains(s, c)
  {
  }

  lemma SplitNone(s: seq<byte>, sep: byte)
    requires !Contains(s, sep)
    ensures Split(s, sep) == [s]
  {
  }

  /** strings.Join(parts, string(sep)) */
  function Join(parts: seq<seq<byte>>, sep: byte): seq<byte>
    requires |parts| > 0
  {
    if |parts| == 1 then parts[0] else parts[0] + ([sep] + Join(parts[1..], sep))
  }

  /** Splitting at sep undoes joining with sep, as long as no part holds sep. */
  lemma {:induction false} SplitJoin(parts: seq<seq<byte>>, sep: byte)
    requires |parts| > 0
    requires forall k | 0 <= k < |parts| :: !Contains(parts[k], sep)
    ensures Split(Join(parts, sep), sep) == parts
  {
    if |parts| == 1 {
      SplitNone(parts[0], sep);
    } else {
      SplitJoin(parts[1..], sep);
      SplitAt(parts[0], sep, Join(parts[1..], sep));
      assert [parts[0]] + parts[1..] == parts;
    }
  }

  lemma SplitDotted(o: seq<byte>)
    requires |o| == 4
    ensures Split(Dotted(o), Dot) == [Decimal(o[0]), Decimal(o[1]), Decimal(o[2]), Decimal(o[3])]
  {
    var parts := [Decimal(o[0]), Decimal(o[1]), Decimal(o[2]), Decimal(o[3])];
    var p1, p2, p3 := parts[1..], parts[2..], parts[3..];
    assert p1[1..] == p2 && p2[1..] == p3 && p3 == [Decimal(o[3])];
    assert Join(p3, Dot) == Decimal(o[3]);
    assert Join(p2, Dot) == Decimal(o[2]) + ([Dot] + Decimal(o[3]));
    assert Join(p1, Dot) == Decimal(o[1]) + ([Dot] + Join(p2, Dot));
    assert Join(parts, Dot) == Dotted(o);
    forall k | 0 <= k < 4
      ensures !Contains(parts[k], Dot)
    {
      DecimalHasNoSeparator(o[k], Dot);
    }
    SplitJoin(parts, Dot);
  }

  lemma ParseIPv4OfDotted(o: seq<byte>)
    requires |o| == 4
    ensures ParseIPv4(Dotted(o)) == Some(o)
  {
    SplitDotted(o);
    ParseIPv4OfFields(Dotted(o), o);
  }

  /** Text that splits at its dots into the decimal renderings of four bytes parses to those bytes. */
  lemma ParseIPv4OfFields(s: seq<byte>, o: seq<byte>)
    requires |o| == 4 && Split(s, Dot) == [Decimal(o[0]), Decimal(o[1]), Decimal(o[2]), Decimal(o[3])]
    ensures ParseIPv4(s) == Some(o)
  {
    ParseOctetOfDecimal(o[0]);
    ParseOctetOfDecimal(o[1]);
    ParseOctetOfDecimal(o[2]);
    ParseOctetOfDecimal(o[3]);
    assert [o[0], o[1], o[2], o[3]] == o;
  }

  /** The dotted text of an IPv4 address parses back to that address. */
  lemma ParseIPOfDotted(o: seq<byte>)
    requires |o| == 4
    ensures ParseIP(Dotted(o)) == Some(V4(o))
  {
    FamilyMarkerSkipsDigits(Decimal(o[0]), [Dot] + (Decimal(o[1]) + ([Dot] + (Decimal(o[2]) + ([Dot] + Decimal(o[3]))))));
    ParseIPv4OfDotted(o);
  }

  /**
   * Round trip of the CIDR text: "a.b.c.d/m" parses back to the address and m when m is at most 32,
   * and is rejected when m is larger.
   */
  lemma ParseCIDROfFormat(o: seq<byte>, prefix: nat)
    requires |o| == 4
    ensures ParseCIDR(Format(o, prefix)) == if prefix <= 32 then CidrV4(o, prefix) else CidrError
  {
    var d := Dotted(o);
    DigitsAndDotsExclude(d, Slash);
    ParseIPOfDotted(o);
    ParseCIDRAtSlash(d, Decimal(prefix), o);
    ParsePrefixOfDecimal(prefix, 32);
  }

  /** Text "a/b" whose part before the first slash is an IPv4 address is decided by its prefix alone. */
  lemma ParseCIDRAtSlash(a: seq<byte>, b: seq<byte>, o: seq<byte>)
    requires !Contains(a, Slash) && ParseAddr(a) == Some(V4(o))
    ensures ParseCIDR(a + ([Slash] + b)) == match ParsePrefix(b, 32) case Some(m) => CidrV4(o, m) case None => CidrError
  {
    var s := a + ([Slash] + b);
    FirstIndexAt(a, Slash, b);
    assert s[..|a|] == a && s[|a| + 1..] == b;
  }

  /** The decimal text of a number is a prefix length exactly when the number is within the bound. */
  lemma ParsePrefixOfDecimal(n: nat, bits: nat)
    ensures ParsePrefix(Decimal(n), bits) == if n <= bits then Some(n) else None
  {
    ParseDecimalOfDecimal(n);
  }

  /** Whatever IPv4 CIDR text parses, rendering what it parsed to and parsing again gives the same result. */
  lemma ParseCIDRNormalises(s: seq<byte>)
    requires ParseCIDR(s).CidrV4?
    ensures ParseCIDR(Format(ParseCIDR(s).ip, ParseCIDR(s).prefix)) == ParseCIDR(s)
  {
    ParseCIDROfFormat(ParseCIDR(s).ip, ParseCIDR(s).prefix);
  }
}
