/**
 * Byte strings. Go strings and byte slices are both modelled as sequences of bytes; the helpers here are
 * the byte-level library routines the core relies on: big-endian 16-bit fields, decimal rendering
 * (`%d`, `strconv`), `copy` into a `[32]byte` and `bytes.Trim(s, "\x00")`.
 */
module Bytes {

  type byte = b: int | 0 <= b < 256

  /** One more than the largest value of a Go uint16. */
  const U16Limit: nat := 0x1_0000

  /** uint16 */
  type uint16 = n: int | 0 <= n < U16Limit

  const Zero: byte := 48    // '0'
  const Dot: byte := 46     // '.'
  const Slash: byte := 47   // '/'
  const Colon: byte := 58   // ':'
  const Percent: byte := 37 // '%'
  const Space: byte := 32   // ' '

  // ---------------------------------------------------------------------------------------------
  // Big-endian uint16 (encoding/binary.BigEndian)

  function BigEndian16(n: nat): (r: seq<byte>)
    requires n < U16Limit
    ensures |r| == 2 && ReadBigEndian16(r[0], r[1]) == n
  {
    [n / 256, n % 256]
  }

  function ReadBigEndian16(hi: byte, lo: byte): (n: nat)
    ensures n < U16Limit
  {
    hi * 256 + lo
  }

  lemma BigEndian16OfRead(hi: byte, lo: byte)
    ensures BigEndian16(ReadBigEndian16(hi, lo)) == [hi, lo]
  {
  }

  // ---------------------------------------------------------------------------------------------
  // Decimal digits

  predicate IsDigit(b: byte) {
    Zero <= b <= Zero + 9
  }

  predicate AllDigits(s: seq<byte>) {
    forall i | 0 <= i < |s| :: IsDigit(s[i])
  }

  predicate Contains(s: seq<byte>, c: byte) {
    exists i | 0 <= i < |s| :: s[i] == c
  }

  /** The decimal rendering of n, as `fmt`'s `%d` and `strconv.Itoa` produce it: no sign, no leading zero. */
  function Decimal(n: nat): (s: seq<byte>)
    ensures 0 < |s| && AllDigits(s)
    ensures n > 0 ==> s[0] != Zero
    ensures |s| > 1 ==> s[0] != Zero
    ensures n < 10 ==> |s| == 1
    ensures n < 100 ==> |s| <= 2
    ensures n < 256 ==> |s| <= 3
  {
    if n < 10 then [Zero + n] else Decimal(n / 10) + [Zero + n % 10]
  }

  /** The value of a string of decimal digits, leading zeros allowed. */
  function ParseDecimal(s: seq<byte>): nat
    requires AllDigits(s)
  {
    if |s| == 0 then 0 else ParseDecimal(s[..|s| - 1]) * 10 + (s[|s| - 1] - Zero)
  }

  lemma {:induction false} ParseDecimalOfDecimal(n: nat)
    ensures ParseDecimal(Decimal(n)) == n
  {
    if n >= 10 {
      var s := Decimal(n);
      assert s[..|s| - 1] == Decimal(n / 10);
      ParseDecimalOfDecimal(n / 10);
    }
  }

  lemma DecimalHasNoSeparator(n: nat, c: byte)
    requires !IsDigit(c)
    ensures !Contains(Decimal(n), c)
  {
  }

  // ---------------------------------------------------------------------------------------------
  // copy(idBytes[:], s) into a [32]byte

  function Zeros(n: nat): (r: seq<byte>)
    ensures |r| == n && forall i | 0 <= i < n :: r[i] == 0
  {
    seq(n, _ => 0)
  }

  /** `var a [32]byte; copy(a[:], s)`: the first 32 bytes of s, zero-padded when s is shorter. */
  function CopyTo32(s: seq<byte>): (a: seq<byte>)
    ensures |a| == 32
    ensures forall i | 0 <= i < 32 :: a[i] == if i < |s| then s[i] else 0
  {
    if |s| >= 32 then s[..32] else s + Zeros(32 - |s|)
  }

  // ---------------------------------------------------------------------------------------------
  // bytes.Trim(s, "\x00")

  function TrimLeadingNul(s: seq<byte>): (r: seq<byte>)
    ensures |r| <= |s| && r == s[|s| - |r|..]
    ensures forall i | 0 <= i < |s| - |r| :: s[i] == 0
    ensures r == [] || r[0] != 0
  {
    if |s| > 0 && s[0] == 0 then TrimLeadingNul(s[1..]) else s
  }

  function TrimTrailingNul(s: seq<byte>): (r: seq<byte>)
    ensures |r| <= |s| && r == s[..|r|]
    ensures forall i | |r| <= i < |s| :: s[i] == 0
    ensures r == [] || r[|r| - 1] != 0
  {
    if |s| > 0 && s[|s| - 1] == 0 then TrimTrailingNul(s[..|s| - 1]) else s
  }

  /** `bytes.Trim(s, "\x00")`: s without its leading and trailing NUL bytes. */
  function TrimNul(s: seq<byte>): seq<byte>
  {
    TrimTrailingNul(TrimLeadingNul(s))
  }

  /** TrimNul keeps a contiguous slice of s and drops only NUL bytes around it; what it keeps has no NUL at either end. */
  lemma TrimNulIsNulFreeSlice(s: seq<byte>)
    ensures exists lo, hi | 0 <= lo <= hi <= |s| ::
              (TrimNul(s) == s[lo..hi] && (forall i | 0 <= i < lo :: s[i] == 0) && (forall i | hi <= i < |s| :: s[i] == 0))
    ensures TrimNul(s) == [] || (TrimNul(s)[0] != 0 && TrimNul(s)[|TrimNul(s)| - 1] != 0)
  {
    var lo, hi := TrimNulBounds(s);
  }

  /** The bounds of the slice TrimNul keeps. */
  lemma TrimNulBounds(s: seq<byte>) returns (lo: nat, hi: nat)
    ensures lo <= hi <= |s| && TrimNul(s) == s[lo..hi]
    ensures forall i | 0 <= i < lo :: s[i] == 0
    ensures forall i | hi <= i < |s| :: s[i] == 0
  {
    var l := TrimLeadingNul(s);
    var r := TrimTrailingNul(l);
    lo := |s| - |l|;
    hi := lo + |r|;
    assert l == s[lo..] && r == l[..|r|];
    forall i | hi <= i < |s|
      ensures s[i] == 0
    {
      assert s[i] == l[i - lo];
    }
  }

  lemma {:induction false} TrimTrailingOfPadded(s: seq<byte>, n: nat)
    requires s == [] || s[|s| - 1] != 0
    ensures TrimTrailingNul(s + Zeros(n)) == s
  {
    if n > 0 {
      assert (s + Zeros(n))[..|s| + n - 1] == s + Zeros(n - 1);
      TrimTrailingOfPadded(s, n - 1);
    } else {
      assert s + Zeros(0) == s;
    }
  }

  lemma TrimLeadingOfPadded(s: seq<byte>, n: nat)
    requires s != [] && s[0] != 0
    ensures TrimLeadingNul(s + Zeros(n)) == s + Zeros(n)
  {
  }

  /**
   * The initiator pads its ID into 32 bytes and the responder trims NULs from both ends: the ID comes
   * back unchanged whenever it fits and neither starts nor ends with a NUL byte.
   */
  lemma TrimNulOfCopyTo32(id: seq<byte>)
    requires |id| <= 32
    requires id == [] || (id[0] != 0 && id[|id| - 1] != 0)
    ensures TrimNul(CopyTo32(id)) == id
  {
    var padded := CopyTo32(id);
    if |id| == 32 {
      assert padded == id + Zeros(0);
    } else {
      assert padded == id + Zeros(32 - |id|);
    }
    if id == [] {
      assert padded == Zeros(32);
      AllNulTrimsToEmpty(padded);
    } else {
      TrimLeadingOfPadded(id, 32 - |id|);
      TrimTrailingOfPadded(id, 32 - |id|);
    }
  }

  lemma {:induction false} AllNulTrimsToEmpty(s: seq<byte>)
    requires forall i | 0 <= i < |s| :: s[i] == 0
    ensures TrimNul(s) == []
  {
    if |s| > 0 {
      AllNulTrimsToEmpty(s[1..]);
    }
  }
}
