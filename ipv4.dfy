/**
 * The dotted-quad IPv4 address form as Python's `ipaddress.IPv4Address`
 * reads (`int(IPv4Address(s))`) and writes (`str(IPv4Address(n))`) it.
 */
module IPv4 {
  import opened Wrappers
  import opened Text

  /** Number of 32-bit address values. */
  const AddressCount: int := 0x1_0000_0000

  /** A 32-bit address value. */
  type Addr = n: int | 0 <= n < 0x1_0000_0000

  /** An octet value. */
  type Octet = v: int | 0 <= v < 256

  /** What `ipaddress` raises while a token is handled (the caller catches all of them). */
  datatype Error = AddressValueError | NetmaskValueError | UnpackError

  /** Python's `c.isascii() and c.isdigit()`. */
  predicate IsDigit(c: char)
  {
    '0' <= c <= '9'
  }

  predicate AllDigits(s: string)
  {
    forall i :: 0 <= i < |s| ==> IsDigit(s[i])
  }

  function DigitValue(c: char): (d: nat)
    requires IsDigit(c)
    ensures d < 10
  {
    c as int - '0' as int
  }

  function DigitChar(d: nat): (c: char)
    requires d < 10
    ensures IsDigit(c) && DigitValue(c) == d
  {
    ('0' as int + d) as char
  }

  /** Python's `int(s, 10)` on a string of ASCII digits. */
  function DecimalValue(s: string): nat
    requires AllDigits(s)
  {
    if s == [] then 0 else DecimalValue(s[..|s| - 1]) * 10 + DigitValue(s[|s| - 1])
  }

  /** Decimal text of an octet, without leading zeros. */
  function OctetText(v: Octet): string
  {
    if v < 10 then [DigitChar(v)]
    else if v < 100 then [DigitChar(v / 10), DigitChar(v % 10)]
    else [DigitChar(v / 100), DigitChar(v / 10 % 10), DigitChar(v % 10)]
  }

  /**
   * One octet of a dotted quad: 1 to 3 ASCII digits, no leading zero unless
   * the octet is "0", value at most 255.
   */
  function ParseOctet(s: string): Option<Octet>
  {
    if s == [] || !AllDigits(s) || |s| > 3 || (s != "0" && s[0] == '0') then None
    else if DecimalValue(s) > 255 then None
    else Some(DecimalValue(s))
  }

  /** The four octets of an address, most significant first. */
  function Octets(n: Addr): seq<Octet>
  {
    [n / 0x100_0000, n / 0x1_0000 % 256, n / 256 % 256, n % 256]
  }

  /** The address whose octets, most significant first, are `o`. */
  function FromOctets(o: seq<Octet>): Addr
    requires |o| == 4
  {
    o[0] as int * 0x100_0000 + o[1] as int * 0x1_0000 + o[2] as int * 256 + o[3] as int
  }

  lemma OctetsFromOctets(n: Addr)
    ensures FromOctets(Octets(n)) == n
  {
    var a := n / 256;
    var b := a / 256;
    assert n == a * 256 + n % 256;
    assert a == b * 256 + a % 256;
    assert b == (b / 256) * 256 + b % 256;
    assert b / 256 == n / 0x100_0000;
    assert b == n / 0x1_0000;
  }

  lemma FromOctetsOctets(o: seq<Octet>)
    requires |o| == 4
    ensures Octets(FromOctets(o)) == o
  {
    var n := FromOctets(o);
    assert n / 0x100_0000 == o[0];
    assert n / 0x1_0000 == o[0] as int * 256 + o[1] as int;
    assert n / 256 == (o[0] as int * 256 + o[1] as int) * 256 + o[2] as int;
  }

  function OctetTexts(o: seq<Octet>): (t: seq<string>)
    ensures |t| == |o|
  {
    seq(|o|, i requires 0 <= i < |o| => OctetText(o[i]))
  }

  /** `str(IPv4Address(n))`: the dotted-quad text of an address. */
  function Format(n: Addr): string
  {
    Join(OctetTexts(Octets(n)), '.')
  }

  /** `int(IPv4Address(s))`: the address that `s` spells, or None where `ipaddress` raises. */
  function Parse(s: string): Option<Addr>
  {
    var parts := Split(s, '.');
    if |parts| != 4 then None
    else
      match (ParseOctet(parts[0]), ParseOctet(parts[1]), ParseOctet(parts[2]), ParseOctet(parts[3]))
      case (Some(a), Some(b), Some(c), Some(d)) => Some(FromOctets([a, b, c, d]))
      case _ => None
  }

  /** Characters an address text may hold. */
  predicate AddressChar(c: char)
  {
    IsDigit(c) || c == '.'
  }

  /** The value of a text of one to three digits, digit by digit. */
  lemma DecimalValueShort(s: string)
    requires AllDigits(s) && 1 <= |s| <= 3
    ensures |s| == 1 ==> DecimalValue(s) == DigitValue(s[0])
    ensures |s| == 2 ==> DecimalValue(s) == DigitValue(s[0]) * 10 + DigitValue(s[1])
    ensures |s| == 3 ==> DecimalValue(s) == DigitValue(s[0]) * 100 + DigitValue(s[1]) * 10 + DigitValue(s[2])
  {
    var p := s[..|s| - 1];
    if |s| >= 2 {
      assert p[..|p| - 1] == s[..|s| - 2];
      if |s| == 3 {
        assert s[..1][..0] == [];
      } else {
        assert s[..0] == [];
      }
    } else {
      assert p == [];
    }
  }

  lemma OctetTextRoundTrip(v: Octet)
    ensures ParseOctet(OctetText(v)) == Some(v)
    ensures forall i :: 0 <= i < |OctetText(v)| ==> IsDigit(OctetText(v)[i])
    ensures 1 <= |OctetText(v)| <= 3
  {
    DecimalValueShort(OctetText(v));
  }

  /** An octet text that parses is the canonical text of its value. */
  lemma OctetTextCanonical(s: string)
    requires ParseOctet(s).Some?
    ensures OctetText(ParseOctet(s).value) == s
  {
    DecimalValueShort(s);
    forall k | 0 <= k < |s| ensures DigitChar(DigitValue(s[k])) == s[k] {
    }
  }

  /** Formatting then parsing gives the address back. */
  lemma {:induction false} ParseFormat(n: Addr)
    ensures Parse(Format(n)) == Some(n)
  {
    var o := Octets(n);
    var t := OctetTexts(o);
    forall k | 0 <= k < 4 ensures '.' !in t[k] && ParseOctet(t[k]) == Some(o[k]) {
      OctetTextRoundTrip(o[k]);
    }
    SplitJoin(t, '.');
    OctetsFromOctets(n);
  }

  /** A text that parses is the canonical text of its address: leading zeros, signs and blanks are refused. */
  lemma {:induction false} FormatParse(s: string)
    requires Parse(s).Some?
    ensures Format(Parse(s).value) == s
  {
    var parts := Split(s, '.');
    JoinSplit(s, '.');
    var o := [ParseOctet(parts[0]).value, ParseOctet(parts[1]).value,
              ParseOctet(parts[2]).value, ParseOctet(parts[3]).value];
    FromOctetsOctets(o);
    forall k | 0 <= k < 4 ensures OctetText(o[k]) == parts[k] {
      OctetTextCanonical(parts[k]);
    }
    assert OctetTexts(o) == parts;
  }

  /** Distinct addresses have distinct texts. */
  lemma FormatInjective(m: Addr, n: Addr)
    requires Format(m) == Format(n)
    ensures m == n
  {
    ParseFormat(m);
    ParseFormat(n);
  }

  /** An address text is made of digits and dots only, so it is untouched by `strip()` and holds no '/', '-' or newline. */
  lemma {:induction false} FormatChars(n: Addr)
    ensures forall i :: 0 <= i < |Format(n)| ==> AddressChar(Format(n)[i])
    ensures Stripped(Format(n)) && |Format(n)| >= 7
  {
    var t := OctetTexts(Octets(n));
    forall k | 0 <= k < 4 ensures 1 <= |t[k]| && forall i :: 0 <= i < |t[k]| ==> AddressChar(t[k][i]) {
      OctetTextRoundTrip(Octets(n)[k]);
    }
    assert t[1..][1..][1..] == [t[3]];
    assert Join(t[1..][1..], '.') == t[2] + "." + t[3];
    assert Join(t[1..], '.') == t[1] + "." + (t[2] + "." + t[3]);
    assert Format(n) == t[0] + "." + (t[1] + "." + (t[2] + "." + t[3]));
  }
}
