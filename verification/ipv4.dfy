/** IPv4 addresses as naturals below 2^32 and prefixes in the CIDR
    notation of section 3.1 of RFC 4632, with the dotted-quad text
    Python's `ipaddress` module prints and its inverse. */
module Ipv4 {
  import opened Wrappers
  import opened Strings

  const AddressCount: nat := 0x1_0000_0000

  predicate IsAddress(a: nat)
  {
    a < AddressCount
  }

  function Pow2(n: nat): (r: nat)
    ensures r >= 1
  {
    if n == 0 then 1 else 2 * Pow2(n - 1)
  }

  lemma {:induction false} Pow2Add(a: nat, b: nat)
    ensures Pow2(a + b) == Pow2(a) * Pow2(b)
  {
    if a > 0 {
      Pow2Add(a - 1, b);
      assert Pow2(a + b) == 2 * Pow2(a - 1 + b);
    }
  }

  lemma Pow2Of32()
    ensures Pow2(32) == AddressCount
  {
    Pow2Add(16, 16);
    assert Pow2(8) == 256;
    Pow2Add(8, 8);
  }

  /** A prefix: a network address and a prefix length. */
  datatype Cidr = Cidr(addr: nat, len: nat)

  /** The number of addresses a prefix of length `len` covers. */
  function Size(len: nat): nat
    requires len <= 32
  {
    Pow2(32 - len)
  }

  /** A well-formed prefix: the length is at most 32 and the address is
      aligned to the prefix size and inside the address space. */
  predicate ValidCidr(c: Cidr)
  {
    c.len <= 32 && IsAddress(c.addr) && c.addr % Size(c.len) == 0
  }

  /** The four octets, most significant first. */
  function Octets(a: nat): (r: seq<nat>)
    requires IsAddress(a)
    ensures |r| == 4 && forall i :: 0 <= i < 4 ==> r[i] < 256
  {
    var a1 := a / 256;
    var a2 := a1 / 256;
    [a2 / 256, a2 % 256, a1 % 256, a % 256]
  }

  /** The address whose octets are `o`, most significant first. */
  function FromOctets(o: seq<nat>): nat
    requires |o| == 4
  {
    ((o[0] * 256 + o[1]) * 256 + o[2]) * 256 + o[3]
  }

  lemma OctetsRoundTrip(a: nat)
    requires IsAddress(a)
    ensures FromOctets(Octets(a)) == a
  {
    var a1 := a / 256;
    var a2 := a1 / 256;
    assert a == a1 * 256 + a % 256;
    assert a1 == a2 * 256 + a1 % 256;
    assert a2 == (a2 / 256) * 256 + a2 % 256;
  }

  /** The numeric value of a decimal digit string (`int(s)`). */
  function DigitsValue(s: string): nat
    requires IsDigits(s)
  {
    if |s| == 0 then 0
    else DigitsValue(s[..|s| - 1]) * 10 + ((s[|s| - 1] as int) - ('0' as int))
  }

  lemma DigitCharValue(d: nat)
    requires d < 10
    ensures (DigitChar(d) as int) - ('0' as int) == d
  {
  }

  /** Reading back `str(n)` gives `n`. */
  lemma {:induction false} NatTextRoundTrip(n: nat)
    ensures DigitsValue(NatText(n)) == n
  {
    if n < 10 {
      DigitCharValue(n);
      assert NatText(n)[..0] == "";
    } else {
      var t := NatText(n / 10) + [DigitChar(n % 10)];
      assert t[..|t| - 1] == NatText(n / 10);
      NatTextRoundTrip(n / 10);
      DigitCharValue(n % 10);
    }
  }

  lemma NatTextInjective(m: nat, n: nat)
    requires NatText(m) == NatText(n)
    ensures m == n
  {
    NatTextRoundTrip(m);
    NatTextRoundTrip(n);
  }

  function OctetTexts(o: seq<nat>): (r: seq<string>)
    ensures |r| == |o|
    ensures forall i :: 0 <= i < |r| ==> r[i] == NatText(o[i])
  {
    if |o| == 0 then [] else [NatText(o[0])] + OctetTexts(o[1..])
  }

  /** `str(IPv4Address(a))`: the dotted quad. */
  function AddrText(a: nat): string
    requires IsAddress(a)
  {
    Join(OctetTexts(Octets(a)), '.')
  }

  /** `str(IPv4Network(c))`: the address, a slash and the length. */
  function CidrText(c: Cidr): string
    requires IsAddress(c.addr)
  {
    AddrText(c.addr) + "/" + NatText(c.len)
  }

  /** `str()` of an optional address: `None` when there is none. */
  function OptAddrText(a: Option<nat>): string
    requires a.Some? ==> IsAddress(a.value)
  {
    if a.Some? then AddrText(a.value) else "None"
  }

  predicate OnlyDigitsAndDots(s: string)
  {
    forall i :: 0 <= i < |s| ==> ('0' <= s[i] <= '9' || s[i] == '.')
  }

  lemma {:induction false} JoinDigits(parts: seq<string>)
    requires forall i :: 0 <= i < |parts| ==> IsDigits(parts[i])
    ensures OnlyDigitsAndDots(Join(parts, '.'))
  {
    if |parts| > 1 {
      JoinDigits(parts[1..]);
    }
  }

  /** The dotted quad holds digits and dots only; in particular no slash
      or comma. */
  lemma AddrTextCharacters(a: nat)
    requires IsAddress(a)
    ensures OnlyDigitsAndDots(AddrText(a))
    ensures '/' !in AddrText(a) && ',' !in AddrText(a)
  {
    JoinDigits(OctetTexts(Octets(a)));
  }

  lemma CidrTextNoComma(c: Cidr)
    requires IsAddress(c.addr)
    ensures ',' !in CidrText(c)
  {
    AddrTextCharacters(c.addr);
  }

  /** Splitting the dotted quad at the dots gives the four octet texts. */
  lemma AddrTextSplit(a: nat)
    requires IsAddress(a)
    ensures Split(AddrText(a), '.') == OctetTexts(Octets(a))
  {
    SplitJoin(OctetTexts(Octets(a)), '.');
  }

  /** Distinct addresses print differently. */
  lemma AddrTextInjective(a: nat, b: nat)
    requires IsAddress(a) && IsAddress(b)
    requires AddrText(a) == AddrText(b)
    ensures a == b
  {
    AddrTextSplit(a);
    AddrTextSplit(b);
    var oa := Octets(a);
    var ob := Octets(b);
    forall i | 0 <= i < 4 ensures oa[i] == ob[i] {
      assert OctetTexts(oa)[i] == OctetTexts(ob)[i];
      NatTextInjective(oa[i], ob[i]);
    }
    assert oa == ob;
    OctetsRoundTrip(a);
    OctetsRoundTrip(b);
  }

  /** Distinct prefixes print differently: the text is `addr/len` with a
      slash-free address. */
  lemma CidrTextInjective(c: Cidr, d: Cidr)
    requires IsAddress(c.addr) && IsAddress(d.addr)
    requires CidrText(c) == CidrText(d)
    ensures c == d
  {
    AddrTextCharacters(c.addr);
    AddrTextCharacters(d.addr);
    SplitJoin([AddrText(c.addr), NatText(c.len)], '/');
    SplitJoin([AddrText(d.addr), NatText(d.len)], '/');
    assert Join([AddrText(c.addr), NatText(c.len)], '/') == CidrText(c);
    assert Join([AddrText(d.addr), NatText(d.len)], '/') == CidrText(d);
    AddrTextInjective(c.addr, d.addr);
    NatTextInjective(c.len, d.len);
  }
}
