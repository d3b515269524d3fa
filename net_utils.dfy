/**
 * utils/net_utils.c and the contracts declared in utils/net_utils.h:
 * MAC-address formatting, the dotted-quad conversions, prefix matching of
 * IPv4 addresses, and the rule that throttles the libnet statistics
 * report.
 *
 * The bodies of net_utils_ip2long, net_utils_long2ip and
 * net_utils_ip_matches are not part of this model's sources; they are
 * modelled from their doc comments and test vectors.  An address is
 * written as four dot-separated decimal fields of one to three digits,
 * each at most 255, and the first field is the most significant byte.
 */
module NetUtils {
  import opened Common
  import opened Context

  // ---------------------------------------------------------------------
  // MAC-address formatting
  // ---------------------------------------------------------------------

  /** The lowercase hexadecimal digit for `d`, as `%x` prints it. */
  function HexDigit(d: nat): char
    requires d < 16
  {
    if d < 10 then ('0' as int + d) as char else ('a' as int + d - 10) as char
  }

  /** The value of a lowercase hexadecimal digit. */
  function HexValue(c: char): Option<nat>
  {
    if '0' <= c <= '9' then Some(c as int - '0' as int)
    else if 'a' <= c <= 'f' then Some(c as int - 'a' as int + 10)
    else None
  }

  /** A byte as `%02x` prints it: two lowercase hex digits. */
  function Hex2(b: Byte): string
  {
    [HexDigit(b as nat / 16), HexDigit(b as nat % 16)]
  }

  /**
   * ether_ntoa: the six bytes of a MAC address as `%02x` groups joined by
   * ':'.  The source reads exactly six bytes from its argument.
   */
  function EtherNtoa(mac: seq<Byte>): (s: string)
    requires |mac| == 6
    ensures |s| == 17
  {
    Hex2(mac[0]) + ":" + Hex2(mac[1]) + ":" + Hex2(mac[2]) + ":" +
    Hex2(mac[3]) + ":" + Hex2(mac[4]) + ":" + Hex2(mac[5])
  }

  /** The text is six two-digit groups separated by ':'. */
  lemma EtherNtoaGroups(mac: seq<Byte>)
    requires |mac| == 6
    ensures forall g :: 0 <= g < 6 ==> EtherNtoa(mac)[3 * g .. 3 * g + 2] == Hex2(mac[g])
    ensures forall g :: 0 <= g < 5 ==> EtherNtoa(mac)[3 * g + 2] == ':'
  {
    var s := EtherNtoa(mac);
    assert s[0..2] == Hex2(mac[0]);
    assert s[3..5] == Hex2(mac[1]);
    assert s[6..8] == Hex2(mac[2]);
    assert s[9..11] == Hex2(mac[3]);
    assert s[12..14] == Hex2(mac[4]);
    assert s[15..17] == Hex2(mac[5]);
  }

  /** Reads a `%02x` group back. */
  function ParseHex2(s: string): Option<Byte>
    requires |s| == 2
  {
    match (HexValue(s[0]), HexValue(s[1]))
    case (Some(hi), Some(lo)) => Some((hi * 16 + lo) as Byte)
    case _ => None
  }

  /** Reads a MAC address written as ether_ntoa writes it. */
  function EtherAton(s: string): Option<seq<Byte>>
    requires |s| == 17
  {
    var groups := seq(6, g requires 0 <= g < 6 => ParseHex2(s[3 * g .. 3 * g + 2]));
    if forall g :: 0 <= g < 6 ==> groups[g].Some? then Some(seq(6, g requires 0 <= g < 6 => groups[g].value))
    else None
  }

  lemma Hex2RoundTrip(b: Byte)
    ensures ParseHex2(Hex2(b)) == Some(b)
  {
    var hi, lo := b as nat / 16, b as nat % 16;
    assert HexValue(HexDigit(hi)) == Some(hi);
    assert HexValue(HexDigit(lo)) == Some(lo);
    assert hi * 16 + lo == b as nat;
  }

  /** Formatting a MAC address loses nothing: it reads back as the same six bytes. */
  lemma EtherNtoaRoundTrip(mac: seq<Byte>)
    requires |mac| == 6
    ensures EtherAton(EtherNtoa(mac)) == Some(mac)
  {
    var s := EtherNtoa(mac);
    var groups := seq(6, g requires 0 <= g < 6 => ParseHex2(s[3 * g .. 3 * g + 2]));
    assert groups == seq(6, g requires 0 <= g < 6 => Some(mac[g])) by {
      EtherNtoaGroups(mac);
      forall g | 0 <= g < 6
        ensures groups[g] == Some(mac[g])
      {
        Hex2RoundTrip(mac[g]);
      }
    }
    assert seq(6, g requires 0 <= g < 6 => groups[g].value) == mac;
  }

  /** Two MAC addresses print alike only when they are equal. */
  lemma EtherNtoaInjective(a: seq<Byte>, b: seq<Byte>)
    requires |a| == 6 && |b| == 6 && EtherNtoa(a) == EtherNtoa(b)
    ensures a == b
  {
    EtherNtoaRoundTrip(a);
    EtherNtoaRoundTrip(b);
  }

  /** The test vector of net_utils_ether_ntoa. */
  lemma EtherNtoaExample()
    ensures EtherNtoa([0xab, 0x57, 0xd8, 0x36, 0xda, 0x88]) == "ab:57:d8:36:da:88"
  {
  }

  // ---------------------------------------------------------------------
  // Decimal numbers and dotted quads
  // ---------------------------------------------------------------------

  /** The largest `uint32_t` plus one. */
  const U32Modulus: nat := 0x1_0000_0000

  /** What net_utils_ip2long answers for a string it cannot parse: -1 as a `uint32_t`. */
  const InvalidAddress: nat := 0xFFFF_FFFF

  predicate IsDigit(c: char)
  {
    '0' <= c <= '9'
  }

  predicate AllDigits(s: string)
  {
    forall i :: 0 <= i < |s| ==> IsDigit(s[i])
  }

  function DigitChar(d: nat): char
    requires d < 10
  {
    ('0' as int + d) as char
  }

  /** `n` as `%d` prints it: decimal, no leading zeros. */
  function Decimal(n: nat): (s: string)
    ensures |s| >= 1 && AllDigits(s)
    ensures n < 10 ==> |s| == 1
    ensures n < 100 ==> |s| <= 2
    ensures n < 1000 ==> |s| <= 3
    ensures s[0] == '0' ==> n == 0
  {
    if n < 10 then [DigitChar(n)] else Decimal(n / 10) + [DigitChar(n % 10)]
  }

  /** A three-digit number prints as its three digits. */
  lemma DecimalThreeDigits(n: nat)
    requires 100 <= n < 1000
    ensures Decimal(n) == [DigitChar(n / 100), DigitChar(n / 10 % 10), DigitChar(n % 10)]
  {
    assert Decimal(n / 10) == [DigitChar(n / 10 / 10), DigitChar(n / 10 % 10)];
  }

  /** The value of a string of decimal digits. */
  function DigitsValue(s: string): nat
    requires AllDigits(s)
  {
    if s == [] then 0 else DigitsValue(s[..|s| - 1]) * 10 + (s[|s| - 1] as int - '0' as int)
  }

  lemma {:induction false} DecimalRoundTrip(n: nat)
    ensures DigitsValue(Decimal(n)) == n
  {
    if n >= 10 {
      DecimalRoundTrip(n / 10);
      var s := Decimal(n);
      assert s[..|s| - 1] == Decimal(n / 10);
    }
  }

  /** The fields of a string between its '.' separators. */
  function Fields(s: string): (f: seq<string>)
    ensures |f| >= 1
  {
    if s == [] then [[]]
    else if s[0] == '.' then [[]] + Fields(s[1..])
    else var r := Fields(s[1..]); [[s[0]] + r[0]] + r[1..]
  }

  /** Two strings joined by a '.'. */
  function Dotted(a: string, b: string): string
  {
    a + "." + b
  }

  lemma {:induction false} FieldsJoin(a: string, b: string)
    requires '.' !in a
    ensures Fields(Dotted(a, b)) == [a] + Fields(b)
  {
    if a == [] {
      assert (a + "." + b)[1..] == b;
    } else {
      assert a[0] in a;
      assert (a + "." + b)[1..] == a[1..] + "." + b;
      FieldsJoin(a[1..], b);
      assert Dotted(a, b)[1..] == Dotted(a[1..], b);
      assert [a[0]] + a[1..] == a;
    }
  }

  lemma {:induction false} FieldsSingle(a: string)
    requires '.' !in a
    ensures Fields(a) == [a]
  {
    if a != [] {
      assert a[0] in a;
      FieldsSingle(a[1..]);
      assert [a[0]] + a[1..] == a;
    }
  }

  /** A field of a dotted quad: one to three decimal digits, at most 255. */
  function ParseOctet(f: string): Option<nat>
  {
    if 1 <= |f| <= 3 && AllDigits(f) && DigitsValue(f) <= 255 then Some(DigitsValue(f)) else None
  }

  /** The 32-bit value of four octets, the first most significant. */
  function Quad(a: nat, b: nat, c: nat, d: nat): nat
  {
    ((a * 256 + b) * 256 + c) * 256 + d
  }

  /**
   * net_utils_ip2long: the address as a 32-bit number, the first field
   * most significant; -1 (0xFFFFFFFF) when the string is not a dotted
   * quad.
   */
  function Ip2Long(s: string): (r: nat)
    ensures r < U32Modulus
  {
    var f := Fields(s);
    if |f| == 4 && ParseOctet(f[0]).Some? && ParseOctet(f[1]).Some? && ParseOctet(f[2]).Some? && ParseOctet(f[3]).Some?
    then Quad(ParseOctet(f[0]).value, ParseOctet(f[1]).value, ParseOctet(f[2]).value, ParseOctet(f[3]).value)
    else InvalidAddress
  }

  /** net_utils_long2ip: the four bytes of the address, most significant first, in decimal. */
  function Long2Ip(n: nat): (s: string)
    requires n < U32Modulus
    ensures |s| <= 15
  {
    var q1 := n / 256;
    var q2 := q1 / 256;
    Dotted(Decimal(q2 / 256), Dotted(Decimal(q2 % 256), Dotted(Decimal(q1 % 256), Decimal(n % 256))))
  }

  lemma ParseOctetDecimal(n: nat)
    requires n <= 255
    ensures ParseOctet(Decimal(n)) == Some(n)
    ensures '.' !in Decimal(n)
  {
    DecimalRoundTrip(n);
  }

  /** Every 32-bit number survives long2ip followed by ip2long. */
  lemma Ip2LongOfLong2Ip(n: nat)
    requires n < U32Modulus
    ensures Ip2Long(Long2Ip(n)) == n
  {
    var q1 := n / 256;
    var q2 := q1 / 256;
    var q3 := q2 / 256;
    ParseOctetDecimal(q3);
    ParseOctetDecimal(q2 % 256);
    ParseOctetDecimal(q1 % 256);
    ParseOctetDecimal(n % 256);
    QuadFields(Decimal(q3), Decimal(q2 % 256), Decimal(q1 % 256), Decimal(n % 256));
    QuadOfBytes(n);
  }

  /** Four '.'-free fields joined by '.' split back into those four. */
  lemma QuadFields(d0: string, d1: string, d2: string, d3: string)
    requires '.' !in d0 && '.' !in d1 && '.' !in d2 && '.' !in d3
    ensures Fields(Dotted(d0, Dotted(d1, Dotted(d2, d3)))) == [d0, d1, d2, d3]
  {
    FieldsSingle(d3);
    FieldsJoin(d2, d3);
    FieldsJoin(d1, Dotted(d2, d3));
    FieldsJoin(d0, Dotted(d1, Dotted(d2, d3)));
  }

  /** The four bytes long2ip prints make up the number again. */
  lemma QuadOfBytes(n: nat)
    requires n < U32Modulus
    ensures Quad(n / 256 / 256 / 256, n / 256 / 256 % 256, n / 256 % 256, n % 256) == n
  {
    var q1 := n / 256;
    var q2 := q1 / 256;
    var q3 := q2 / 256;
    assert q2 == q3 * 256 + q2 % 256;
    assert q1 == q2 * 256 + q1 % 256;
    assert n == q1 * 256 + n % 256;
  }

  /** long2ip gives different strings for different numbers. */
  lemma Long2IpInjective(m: nat, n: nat)
    requires m < U32Modulus && n < U32Modulus && Long2Ip(m) == Long2Ip(n)
    ensures m == n
  {
    Ip2LongOfLong2Ip(m);
    Ip2LongOfLong2Ip(n);
  }

  /** long2ip prints the four bytes of the number, most significant first. */
  lemma Long2IpOfBytes(a: nat, b: nat, c: nat, d: nat)
    requires a < 256 && b < 256 && c < 256 && d < 256
    ensures Quad(a, b, c, d) < U32Modulus
    ensures Long2Ip(Quad(a, b, c, d)) == Dotted(Decimal(a), Dotted(Decimal(b), Dotted(Decimal(c), Decimal(d))))
  {
    var n := Quad(a, b, c, d);
    var q1, q2 := (a * 256 + b) * 256 + c, a * 256 + b;
    DivUnique(n, 256, q1, d);
    DivUnique(q1, 256, q2, c);
    DivUnique(q2, 256, a, b);
    assert n / 256 == q1 && n % 256 == d;
    assert q1 / 256 == q2 && q1 % 256 == c;
    assert q2 / 256 == a && q2 % 256 == b;
  }

  /** The test vectors of net_utils_long2ip, and ip2long on the same strings. */
  lemma ZeroAddress()
    ensures Long2Ip(0) == "0.0.0.0" && Ip2Long("0.0.0.0") == 0
  {
    Ip2LongOfLong2Ip(0);
    assert Decimal(0) == "0";
  }

  lemma SmallPrinted()
    ensures Long2Ip(16909060) == "1.2.3.4"
  {
    Long2IpOfBytes(1, 2, 3, 4);
    assert Decimal(1) == "1" && Decimal(2) == "2" && Decimal(3) == "3" && Decimal(4) == "4";
    assert Quad(1, 2, 3, 4) == 16909060;
    SmallDots();
  }

  lemma SmallDots()
    ensures Dotted("1", Dotted("2", Dotted("3", "4"))) == "1.2.3.4"
  {
    assert Dotted("3", "4") == "3.4";
    assert Dotted("2", "3.4") == "2.3.4";
  }

  lemma SmallAddress()
    ensures Long2Ip(16909060) == "1.2.3.4" && Ip2Long("1.2.3.4") == 16909060
  {
    SmallPrinted();
    Ip2LongOfLong2Ip(16909060);
  }

  lemma Decimal255()
    ensures Decimal(255) == "255"
  {
    DecimalThreeDigits(255);
    assert [DigitChar(2), DigitChar(5), DigitChar(5)] == "255";
  }

  lemma BroadcastPrinted()
    ensures Long2Ip(4294967295) == "255.255.255.255"
  {
    Decimal255();
    Long2IpOfBytes(255, 255, 255, 255);
    var d := Decimal(255);
    assert Quad(255, 255, 255, 255) == 4294967295;
    assert Long2Ip(4294967295) == Dotted(d, Dotted(d, Dotted(d, d)));
    BroadcastDots();
  }

  lemma BroadcastDots()
    ensures Dotted("255", Dotted("255", Dotted("255", "255"))) == "255.255.255.255"
  {
    assert Dotted("255", "255") == "255.255";
    assert Dotted("255", "255.255") == "255.255.255";
  }

  lemma BroadcastAddress()
    ensures Long2Ip(4294967295) == "255.255.255.255" && Ip2Long("255.255.255.255") == 4294967295
  {
    BroadcastPrinted();
    Ip2LongOfLong2Ip(4294967295);
  }

  /** The empty string is no address: ip2long answers -1. */
  lemma EmptyAddress()
    ensures Ip2Long("") == InvalidAddress
  {
    assert Fields("") == [""];
  }

  /** The error value of ip2long is also the value of a valid address. */
  lemma InvalidCollidesWithBroadcast()
    ensures Ip2Long("") == Ip2Long("255.255.255.255")
  {
    EmptyAddress();
    BroadcastAddress();
  }

  // ---------------------------------------------------------------------
  // Prefix matching
  // ---------------------------------------------------------------------

  function Pow2(k: nat): (p: nat)
    ensures p >= 1
  {
    if k == 0 then 1 else 2 * Pow2(k - 1)
  }

  /** The top `bits` bits of a 32-bit address. */
  function Prefix(x: nat, bits: nat): int
    requires bits <= 32
  {
    x / Pow2(32 - bits)
  }

  /**
   * net_utils_ip_matches: 1 when the two addresses, as ip2long reads
   * them, agree on their top `netBits` bits, 0 otherwise.
   */
  function IpMatches(testAddr: string, matchAddr: string, netBits: nat): (r: int)
    requires netBits <= 32
    ensures r == 0 || r == 1
  {
    if Prefix(Ip2Long(testAddr), netBits) == Prefix(Ip2Long(matchAddr), netBits) then 1 else 0
  }

  lemma DivUnique(x: nat, d: nat, q: nat, r: nat)
    requires d > 0 && x == q * d + r && r < d
    ensures x / d == q && x % d == r
  {
    var k := x / d - q;
    assert k * d == r - x % d;
    MulMono(1, k, d);
    MulMono(k, -1, d);
  }

  lemma MulMono(a: int, b: int, d: nat)
    ensures a <= b ==> a * d <= b * d
  {
  }

  lemma {:induction false} Pow2Add(a: nat, b: nat)
    ensures Pow2(a + b) == Pow2(a) * Pow2(b)
  {
    if a > 0 {
      Pow2Add(a - 1, b);
    }
  }

  /** Dividing twice is dividing by the product. */
  lemma DivDiv(x: nat, a: nat, b: nat)
    requires a > 0 && b > 0
    ensures x / a / b == x / (a * b)
  {
    var q := x / a;
    var q' := q / b;
    var ra, rb := x % a, q % b;
    assert x == q * a + ra;
    assert q == q' * b + rb;
    Regroup(q', b, rb, a);
    Below(rb, b, ra, a);
    DivUnique(x, a * b, q', rb * a + ra);
  }

  lemma Regroup(q: nat, b: nat, rb: nat, a: nat)
    ensures (q * b + rb) * a == q * (a * b) + rb * a
  {
  }

  lemma Below(rb: nat, b: nat, ra: nat, a: nat)
    requires rb < b && ra < a
    ensures rb * a + ra < a * b
  {
    MulMono(rb, b - 1, a);
    assert (b - 1) * a == a * b - a;
  }

  /** A shorter prefix is read off the longer one. */
  lemma PrefixOfPrefix(x: nat, m: nat, n: nat)
    requires m <= n <= 32
    ensures Prefix(x, m) == Prefix(x, n) / Pow2(n - m)
  {
    Pow2Add(32 - n, n - m);
    DivDiv(x, Pow2(32 - n), Pow2(n - m));
  }

  /** Matching on all 32 bits is equality of the addresses. */
  lemma IpMatchesAllBits(a: string, b: string)
    ensures IpMatches(a, b, 32) == 1 <==> Ip2Long(a) == Ip2Long(b)
  {
  }

  /** Matching on no bits always succeeds. */
  lemma IpMatchesNoBits(a: string, b: string)
    ensures IpMatches(a, b, 0) == 1
  {
    assert Pow2(32) == U32Modulus by {
      Pow2Add(16, 16);
      Pow2Add(8, 8);
      Pow2Add(4, 4);
      Pow2Add(2, 2);
    }
  }

  lemma Decimal100()
    ensures Decimal(100) == "100"
  {
    DecimalThreeDigits(100);
    assert [DigitChar(1), DigitChar(0), DigitChar(0)] == "100";
  }

  lemma Printed1_2_3_100()
    ensures Long2Ip(Quad(1, 2, 3, 100)) == "1.2.3.100"
  {
    Decimal100();
    Long2IpOfBytes(1, 2, 3, 100);
    assert Decimal(1) == "1" && Decimal(2) == "2" && Decimal(3) == "3";
    Dots1_2_3_100();
  }

  lemma Dots1_2_3_100()
    ensures Dotted("1", Dotted("2", Dotted("3", "100"))) == "1.2.3.100"
  {
    assert Dotted("3", "100") == "3.100";
    assert Dotted("2", "3.100") == "2.3.100";
  }

  lemma Address1_2_3_100()
    ensures Ip2Long("1.2.3.100") == Quad(1, 2, 3, 100)
  {
    Printed1_2_3_100();
    Ip2LongOfLong2Ip(Quad(1, 2, 3, 100));
  }

  /** Two test vectors of net_utils_ip_matches: the addresses share 24 bits but not 32. */
  lemma IpMatchesExamples()
    ensures IpMatches("1.2.3.4", "1.2.3.100", 32) == 0
    ensures IpMatches("1.2.3.4", "1.2.3.100", 24) == 1
  {
    SmallAddress();
    Address1_2_3_100();
    assert Pow2(8) == 256;
    DivUnique(Quad(1, 2, 3, 4), 256, Quad(0, 1, 2, 3), 4);
    DivUnique(Quad(1, 2, 3, 100), 256, Quad(0, 1, 2, 3), 100);
  }

  /** Addresses matching on a prefix also match on every shorter one. */
  lemma IpMatchesShorter(a: string, b: string, m: nat, n: nat)
    requires m <= n <= 32 && IpMatches(a, b, n) == 1
    ensures IpMatches(a, b, m) == 1
  {
    PrefixOfPrefix(Ip2Long(a), m, n);
    PrefixOfPrefix(Ip2Long(b), m, n);
  }

  // ---------------------------------------------------------------------
  // The statistics throttle
  // ---------------------------------------------------------------------

  /** The width of `u_long`: the throttle subtracts times in unsigned 64-bit arithmetic. */
  const ULongModulus: nat := 0x1_0000_0000_0000_0000

  /** Seconds between the last report and now, as `curr_time - last` computes them. */
  function Elapsed(last: nat, now: nat): nat
    requires last < ULongModulus && now < ULongModulus
  {
    (now - last) % ULongModulus
  }

  /** One decision of the throttle: whether to report, and the new last-report time. */
  datatype Throttled = Throttled(report: bool, lastStatsAt: nat)

  /**
   * The throttle rule: a zero `last` means no report was checked yet, so
   * the current time is recorded silently; otherwise a report is due when
   * more than ten seconds have passed, and it records the current time.
   */
  function Throttle(last: nat, now: nat): (t: Throttled)
    requires last < ULongModulus && now < ULongModulus
    ensures t.lastStatsAt < ULongModulus
    ensures t.lastStatsAt == last || t.lastStatsAt == now
  {
    if last == 0 then Throttled(false, now)
    else if Elapsed(last, now) > 10 then Throttled(true, now)
    else Throttled(false, last)
  }

  /** With a clock that does not run backwards, a report is due exactly after more than ten seconds. */
  lemma ThrottleForward(last: nat, now: nat)
    requires 0 < last <= now < ULongModulus
    ensures Throttle(last, now).report <==> now - last > 10
    ensures Throttle(last, now).lastStatsAt == if now - last > 10 then now else last
  {
  }

  /**
   * A clock that runs backwards wraps the unsigned difference around, and
   * a report follows at once.
   */
  lemma ThrottleBackward(last: nat, now: nat)
    requires now < last < ULongModulus && last - now < ULongModulus - 10
    ensures Throttle(last, now) == Throttled(true, now)
  {
    assert Elapsed(last, now) == ULongModulus - (last - now);
  }

  /** The times at which a run of calls, at nondecreasing times, reports. */
  function ReportTimes(last: nat, times: seq<nat>): seq<nat>
    requires last < ULongModulus
    requires forall i :: 0 <= i < |times| ==> times[i] < ULongModulus
    decreases |times|
  {
    if times == [] then []
    else
      var t := Throttle(last, times[0]);
      (if t.report then [times[0]] else []) + ReportTimes(t.lastStatsAt, times[1..])
  }

  predicate Nondecreasing(times: seq<nat>)
  {
    forall i, j :: 0 <= i < j < |times| ==> times[i] <= times[j]
  }

  /**
   * Over a run of calls with a clock that does not run backwards, every
   * report comes more than ten seconds after the time last recorded, and
   * two reports are more than ten seconds apart.
   */
  lemma {:induction false} ReportsSpaced(last: nat, times: seq<nat>)
    requires last < ULongModulus
    requires forall i :: 0 <= i < |times| ==> times[i] < ULongModulus
    requires Nondecreasing(times) && (|times| > 0 ==> last <= times[0])
    ensures forall k :: 0 <= k < |ReportTimes(last, times)| ==> last + 10 < ReportTimes(last, times)[k] || last == 0
    ensures forall k :: 0 <= k < |ReportTimes(last, times)| - 1 ==>
              ReportTimes(last, times)[k] + 10 < ReportTimes(last, times)[k + 1]
    decreases |times|
  {
    if times != [] {
      var t := Throttle(last, times[0]);
      var rest := times[1..];
      assert Nondecreasing(rest);
      ReportsSpaced(t.lastStatsAt, rest);
      var r := ReportTimes(t.lastStatsAt, rest);
      var all := ReportTimes(last, times);
      assert all == (if t.report then [times[0]] else []) + r;
      if last != 0 && times[0] - last <= 10 {
        assert t.lastStatsAt == last;
      }
      if t.report {
        assert t.lastStatsAt == times[0] && times[0] != 0;
        forall k | 0 <= k < |all| ensures last + 10 < all[k] || last == 0 {
          if k > 0 {
            assert all[k] == r[k - 1];
          }
        }
      } else {
        assert all == r;
      }
    }
  }

  /**
   * maybe_print_libnet_stats: applies the throttle to the context at
   * time `now` and answers whether the statistics are reported.
   */
  method MaybePrintLibnetStats(ctx: ResetterContext, now: nat) returns (report: bool)
    requires ctx.libnetLastStatsAt < ULongModulus && now < ULongModulus
    modifies ctx`libnetLastStatsAt
    ensures Throttle(old(ctx.libnetLastStatsAt), now) == Throttled(report, ctx.libnetLastStatsAt)
  {
    var last := ctx.libnetLastStatsAt;
    report := false;
    if last == 0 {
      ctx.libnetLastStatsAt := now;
    } else if (now - last) % ULongModulus > 10 {
      report := true;
      ctx.libnetLastStatsAt := now;
    }
  }
}
