/** The setup-time validators of src/pystream/utils/validation.py. */
module Validation {
  import opened Exceptions
  import HeaderCodec

  /** The dynamically typed values a caller may pass. Python's `bool` is a subclass of `int`;
      here it is its own case, so that "exactly int" can be told apart from "an int or a bool". */
  datatype PyValue = PyInt(i: int) | PyBool(b: bool) | PyFloat(x: real) | PyStr(s: string) | PyNone

  /** `type(value) is int` (validation.py:12-16). */
  predicate IsExactInt(v: PyValue): (r: bool)
    ensures v.PyBool? ==> !r
    ensures v.PyInt? ==> r
  {
    v.PyInt?
  }

  const PORT_MAX: int := 65535
  /** The largest payload slice a packet can carry: PACKET_MAX_SIZE - PACKET_HEADER_SIZE. */
  const PACKET_SIZE_MAX: int := HeaderCodec.PACKET_MAX_SIZE - HeaderCodec.PACKET_HEADER_SIZE

  function ValidatePort(v: PyValue): (r: Outcome)
    ensures r.Pass? <==> v.PyInt? && 0 <= v.i <= 65535
    ensures r.Fail? ==> r.error == InvalidPortError
  {
    if !IsExactInt(v) then Fail(InvalidPortError)
    else if v.i < 0 || v.i > PORT_MAX then Fail(InvalidPortError)
    else Pass
  }

  function ValidatePacketSize(v: PyValue): (r: Outcome)
    ensures r.Pass? <==> v.PyInt? && 0 < v.i <= 65491
    ensures r.Fail? ==> r.error == InvalidPacketSizeError
  {
    if !IsExactInt(v) then Fail(InvalidPacketSizeError)
    else if !(0 < v.i <= PACKET_SIZE_MAX) then Fail(InvalidPacketSizeError)
    else Pass
  }

  // ---------------------------------------------------------------------------------------
  // IPv4 addresses. The source delegates to socket.inet_pton(AF_INET, value); that call is
  // foreign, so it is modelled by the dotted-quad grammar it accepts: exactly four groups
  // separated by '.', each a non-empty run of decimal digits without a leading zero (a lone
  // "0" is fine) whose value is at most 255.

  predicate IsDigit(c: char) { '0' <= c <= '9' }

  function DigitValue(c: char): nat requires IsDigit(c) { c as int - '0' as int }

  function DigitChar(d: nat): (c: char)
    requires d < 10
    ensures IsDigit(c) && DigitValue(c) == d
  {
    ('0' as int + d) as char
  }

  /** The value of a string of decimal digits. */
  function DecimalValue(s: string): nat
    requires forall k :: 0 <= k < |s| ==> IsDigit(s[k])
  {
    if s == [] then 0 else 10 * DecimalValue(s[..|s| - 1]) + DigitValue(s[|s| - 1])
  }

  /** The decimal representation of n, as `str(n)` writes it. */
  function Decimal(n: nat): (s: string)
    ensures |s| > 0 && forall k :: 0 <= k < |s| ==> IsDigit(s[k])
  {
    if n < 10 then [DigitChar(n)] else Decimal(n / 10) + [DigitChar(n % 10)]
  }

  predicate IsOctet(p: string) {
    && |p| > 0
    && (forall k :: 0 <= k < |p| ==> IsDigit(p[k]))
    && (|p| == 1 || p[0] != '0')
    && DecimalValue(p) <= 255
  }

  /** `s.split(".")`. */
  function Split(s: string): (parts: seq<string>)
    ensures |parts| > 0
    ensures forall k :: 0 <= k < |parts| ==> '.' !in parts[k]
  {
    if s == [] then [""]
    else
      var rest := Split(s[1..]);
      if s[0] == '.' then [""] + rest else [[s[0]] + rest[0]] + rest[1..]
  }

  /** `".".join(parts)`. */
  function JoinDots(parts: seq<string>): string
    requires |parts| > 0
  {
    if |parts| == 1 then parts[0] else parts[0] + "." + JoinDots(parts[1..])
  }

  datatype Quad = Quad(a: nat, b: nat, c: nat, d: nat)

  predicate IsQuad(q: Quad) { q.a <= 255 && q.b <= 255 && q.c <= 255 && q.d <= 255 }

  /** The four octets of a dotted-quad address, or None when inet_pton would reject it. */
  function ParseIPv4(s: string): (r: Option<Quad>)
    ensures r.Some? ==> IsQuad(r.value)
  {
    var parts := Split(s);
    if |parts| == 4 && IsOctet(parts[0]) && IsOctet(parts[1]) && IsOctet(parts[2]) && IsOctet(parts[3])
    then Some(Quad(DecimalValue(parts[0]), DecimalValue(parts[1]), DecimalValue(parts[2]), DecimalValue(parts[3])))
    else None
  }

  function FormatIPv4(q: Quad): string {
    Decimal(q.a) + "." + Decimal(q.b) + "." + Decimal(q.c) + "." + Decimal(q.d)
  }

  /** validate_ipv4_address: a non-string raises TypeError inside inet_pton, a string it does
      not accept raises OSError; both become InvalidIPAddressError (validation.py:41-50). */
  function ValidateIPv4(v: PyValue): (r: Outcome)
    ensures r.Pass? <==> v.PyStr? && ParseIPv4(v.s).Some?
    ensures r.Fail? ==> r.error == InvalidIPAddressError
  {
    if !v.PyStr? then Fail(InvalidIPAddressError)
    else if ParseIPv4(v.s).None? then Fail(InvalidIPAddressError)
    else Pass
  }

  // ---- decimal digits -------------------------------------------------------------------

  lemma {:induction false} DecimalValueOfDecimal(n: nat)
    ensures DecimalValue(Decimal(n)) == n
  {
    if n >= 10 {
      var s := Decimal(n);
      assert s[..|s| - 1] == Decimal(n / 10);
      DecimalValueOfDecimal(n / 10);
    }
  }

  lemma {:induction false} DecimalHasNoLeadingZero(n: nat)
    ensures var s := Decimal(n); |s| == 1 || s[0] != '0'
  {
    if n >= 10 {
      DecimalHasNoLeadingZero(n / 10);
      var t := Decimal(n / 10);
      assert Decimal(n)[0] == t[0];
      if |t| == 1 { assert n / 10 >= 1; assert t == [DigitChar(n / 10)]; }
    }
  }

  lemma {:induction false} DecimalValuePositive(s: string)
    requires |s| > 0 && (forall k :: 0 <= k < |s| ==> IsDigit(s[k])) && s[0] != '0'
    ensures DecimalValue(s) >= 1
  {
    if |s| > 1 {
      DecimalValuePositive(s[..|s| - 1]);
    }
  }

  /** A digit string without a leading zero is the decimal representation of its value. */
  lemma {:induction false} DecimalOfDecimalValue(s: string)
    requires |s| > 0 && (forall k :: 0 <= k < |s| ==> IsDigit(s[k])) && (|s| == 1 || s[0] != '0')
    ensures Decimal(DecimalValue(s)) == s
  {
    if |s| > 1 {
      var init := s[..|s| - 1];
      assert init[0] == s[0];
      DecimalValuePositive(init);
      DecimalOfDecimalValue(init);
      var n := DecimalValue(s);
      assert n / 10 == DecimalValue(init) && n % 10 == DigitValue(s[|s| - 1]);
      assert DigitChar(n % 10) == s[|s| - 1];
      assert s == init + [s[|s| - 1]];
    }
  }

  lemma DecimalIsOctet(n: nat)
    requires n <= 255
    ensures IsOctet(Decimal(n))
  {
    DecimalValueOfDecimal(n);
    DecimalHasNoLeadingZero(n);
  }

  // ---- splitting on dots ----------------------------------------------------------------

  lemma {:induction false} SplitNoDot(s: string)
    requires '.' !in s
    ensures Split(s) == [s]
  {
    if s != [] {
      assert s[0] != '.';
      assert '.' !in s[1..];
      SplitNoDot(s[1..]);
      assert s == [s[0]] + s[1..];
    }
  }

  lemma {:induction false} SplitDot(x: string, y: string)
    requires '.' !in x
    ensures Split(x + "." + y) == [x] + Split(y)
  {
    if x == [] {
      assert x + "." + y == ['.'] + y;
      assert (['.'] + y)[1..] == y;
    } else {
      var s := x + "." + y;
      assert s[0] == x[0] && s[1..] == x[1..] + "." + y;
      assert '.' !in x[1..];
      SplitDot(x[1..], y);
      assert x == [x[0]] + x[1..];
    }
  }

  lemma {:induction false} JoinDotsSplit(s: string)
    ensures JoinDots(Split(s)) == s
  {
    if s != [] {
      var rest := Split(s[1..]);
      JoinDotsSplit(s[1..]);
      if s[0] == '.' {
        assert Split(s) == [""] + rest;
        assert (([""] + rest)[1..]) == rest;
        assert s == "" + "." + s[1..];
      } else {
        var parts := [[s[0]] + rest[0]] + rest[1..];
        assert Split(s) == parts;
        if |rest| == 1 {
          assert JoinDots(parts) == [s[0]] + rest[0];
        } else {
          assert parts[1..] == rest[1..];
          assert JoinDots(rest) == rest[0] + "." + JoinDots(rest[1..]);
          assert JoinDots(parts) == [s[0]] + rest[0] + "." + JoinDots(rest[1..]);
        }
        assert s == [s[0]] + s[1..];
      }
    }
  }

  // ---- the address grammar ---------------------------------------------------------------

  /** Every quad of octets is accepted, and parses back to itself. */
  lemma ParseFormat(q: Quad)
    requires IsQuad(q)
    ensures ParseIPv4(FormatIPv4(q)) == Some(q)
  {
    SplitFormat(q);
    OctetHasNoDot(q.a); OctetHasNoDot(q.b); OctetHasNoDot(q.c); OctetHasNoDot(q.d);
    DecimalValueOfDecimal(q.a); DecimalValueOfDecimal(q.b);
    DecimalValueOfDecimal(q.c); DecimalValueOfDecimal(q.d);
  }

  /** The dotted form of a quad splits into its four decimal groups. */
  lemma SplitFormat(q: Quad)
    requires IsQuad(q)
    ensures Split(FormatIPv4(q)) == [Decimal(q.a), Decimal(q.b), Decimal(q.c), Decimal(q.d)]
  {
    OctetHasNoDot(q.a); OctetHasNoDot(q.b); OctetHasNoDot(q.c); OctetHasNoDot(q.d);
    SplitFour(Decimal(q.a), Decimal(q.b), Decimal(q.c), Decimal(q.d));
  }

  lemma SplitFour(a: string, b: string, c: string, d: string)
    requires '.' !in a && '.' !in b && '.' !in c && '.' !in d
    ensures Split(a + "." + b + "." + c + "." + d) == [a, b, c, d]
  {
    var cd := c + "." + d;
    var bcd := b + "." + cd;
    assert a + "." + b + "." + c + "." + d == a + "." + bcd;
    SplitNoDot(d);
    SplitDot(c, d);
    SplitDot(b, cd);
    SplitDot(a, bcd);
  }

  /** The decimal form of an octet is an octet and holds no dot. */
  lemma OctetHasNoDot(n: nat)
    requires n <= 255
    ensures IsOctet(Decimal(n)) && '.' !in Decimal(n)
  {
    DecimalIsOctet(n);
  }

  /** Every accepted string is the canonical form of the quad it denotes. */
  lemma JoinDotsFour(p0: string, p1: string, p2: string, p3: string)
    ensures JoinDots([p0, p1, p2, p3]) == p0 + "." + p1 + "." + p2 + "." + p3
  {
    assert [p0, p1, p2, p3][1..] == [p1, p2, p3];
    assert [p1, p2, p3][1..] == [p2, p3];
    assert [p2, p3][1..] == [p3];
    assert JoinDots([p2, p3]) == p2 + "." + p3;
    assert JoinDots([p1, p2, p3]) == p1 + "." + (p2 + "." + p3);
    assert JoinDots([p0, p1, p2, p3]) == p0 + "." + (p1 + "." + (p2 + "." + p3));
  }

  lemma FormatParse(s: string)
    requires ParseIPv4(s).Some?
    ensures FormatIPv4(ParseIPv4(s).value) == s
  {
    var parts := Split(s);
    var q := ParseIPv4(s).value;
    assert parts == [parts[0], parts[1], parts[2], parts[3]];
    JoinDotsSplit(s);
    JoinDotsFour(parts[0], parts[1], parts[2], parts[3]);
    DecimalOfDecimalValue(parts[0]);
    DecimalOfDecimalValue(parts[1]);
    DecimalOfDecimalValue(parts[2]);
    DecimalOfDecimalValue(parts[3]);
  }

  /** validate_ipv4_address accepts exactly the strings written FormatIPv4(q) for octets q. */
  lemma IPv4AcceptsExactlyDottedQuads(s: string)
    ensures ValidateIPv4(PyStr(s)).Pass? <==> exists q :: IsQuad(q) && FormatIPv4(q) == s
  {
    if ValidateIPv4(PyStr(s)).Pass? {
      FormatParse(s);
      var q := ParseIPv4(s).value;
      assert IsQuad(q) && FormatIPv4(q) == s;
    } else if exists q :: IsQuad(q) && FormatIPv4(q) == s {
      var q :| IsQuad(q) && FormatIPv4(q) == s;
      ParseFormat(q);
    }
  }

  // ---- the repository's test vectors (tests/test_utils/test_validation.py) ---------------

  /** Neither numeric validator takes a bool for an int, although True and False are 1 and 0. */
  lemma BoolsAreNotInts(b: bool)
    ensures ValidatePort(PyBool(b)) == Fail(InvalidPortError)
    ensures ValidatePacketSize(PyBool(b)) == Fail(InvalidPacketSizeError)
  {
  }

  lemma PortVectors()
    ensures ValidatePort(PyInt(-1)).Fail? && ValidatePort(PyInt(65536)).Fail?
    ensures ValidatePort(PyInt(0)).Pass? && ValidatePort(PyInt(100)).Pass?
    ensures ValidatePort(PyInt(1000)).Pass? && ValidatePort(PyInt(10000)).Pass?
    ensures ValidatePort(PyInt(65535)).Pass?
    ensures ValidatePort(PyStr("")).Fail? && ValidatePort(PyFloat(3.14)).Fail?
    ensures ValidatePort(PyBool(true)).Fail? && ValidatePort(PyNone).Fail?
  {
  }

  lemma PacketSizeVectors()
    ensures ValidatePacketSize(PyInt(-1)).Fail? && ValidatePacketSize(PyInt(0)).Fail?
    ensures ValidatePacketSize(PyInt(HeaderCodec.PACKET_MAX_SIZE)).Fail?
    ensures ValidatePacketSize(PyInt(1)).Pass? && ValidatePacketSize(PyInt(50000)).Pass?
    ensures ValidatePacketSize(PyInt(HeaderCodec.PACKET_MAX_SIZE - HeaderCodec.PACKET_HEADER_SIZE)).Pass?
    ensures ValidatePacketSize(PyInt(65492)).Fail?
    ensures ValidatePacketSize(PyStr("")).Fail? && ValidatePacketSize(PyNone).Fail?
    ensures ValidatePacketSize(PyFloat(3.14)).Fail?
  {
  }

  lemma IPv4TypeVectors()
    ensures ValidateIPv4(PyNone).Fail? && ValidateIPv4(PyInt(0)).Fail?
    ensures ValidateIPv4(PyBool(true)).Fail? && ValidateIPv4(PyFloat(3.14)).Fail?
  {
  }

  lemma IPv4AcceptsTypicalAddress()
    ensures ValidateIPv4(PyStr("192.168.0.1")).Pass?
  {
    assert Decimal(1) == "1" && Decimal(19) == "19" && Decimal(192) == "192";
    assert Decimal(16) == "16" && Decimal(168) == "168" && Decimal(0) == "0";
    assert FormatIPv4(Quad(192, 168, 0, 1)) == "192.168.0.1";
    ParseFormat(Quad(192, 168, 0, 1));
  }

  lemma IPv4AcceptsRepeatedOctets()
    ensures ValidateIPv4(PyStr("8.8.8.8")).Pass?
  {
    assert FormatIPv4(Quad(8, 8, 8, 8)) == "8.8.8.8";
    ParseFormat(Quad(8, 8, 8, 8));
  }

  lemma IPv4AcceptsTopOctet()
    ensures ValidateIPv4(PyStr("32.32.32.255")).Pass?
  {
    assert Decimal(3) == "3" && Decimal(32) == "32";
    assert Decimal(2) == "2" && Decimal(25) == "25" && Decimal(255) == "255";
    assert FormatIPv4(Quad(32, 32, 32, 255)) == "32.32.32.255";
    ParseFormat(Quad(32, 32, 32, 255));
  }

  /** An accepted address holds nothing but digits and dots. */
  lemma AcceptedCharacters(s: string, c: char)
    requires ParseIPv4(s).Some? && c in s
    ensures IsDigit(c) || c == '.'
  {
    FormatParse(s);
    var q := ParseIPv4(s).value;
    var a, b, cc, d := Decimal(q.a), Decimal(q.b), Decimal(q.c), Decimal(q.d);
    assert s == a + "." + b + "." + cc + "." + d;
    if c in a { var k :| 0 <= k < |a| && a[k] == c; }
    if c in b { var k :| 0 <= k < |b| && b[k] == c; }
    if c in cc { var k :| 0 <= k < |cc| && cc[k] == c; }
    if c in d { var k :| 0 <= k < |d| && d[k] == c; }
  }

  lemma IPv4RejectsForeignCharacters()
    ensures ValidateIPv4(PyStr("abc")).Fail?
    ensures ValidateIPv4(PyStr("f03rf")).Fail?
    ensures ValidateIPv4(PyStr("-1.-1.-1.-1")).Fail?
  {
    if ParseIPv4("abc").Some? { AcceptedCharacters("abc", 'a'); }
    if ParseIPv4("f03rf").Some? { AcceptedCharacters("f03rf", 'f'); }
    if ParseIPv4("-1.-1.-1.-1").Some? { AcceptedCharacters("-1.-1.-1.-1", '-'); }
  }

  lemma IPv4RejectsThreeGroups()
    ensures ValidateIPv4(PyStr("00.1.3")).Fail?
  {
    assert "00.1.3" == "00" + "." + ("1" + "." + "3");
    SplitDot("00", "1" + "." + "3");
    SplitDot("1", "3");
    SplitNoDot("3");
  }

  lemma IPv4RejectsLargeOctet()
    ensures ValidateIPv4(PyStr("300.1.1.1")).Fail?
  {
    assert "300.1.1.1" == "300" + "." + "1.1.1";
    SplitDot("300", "1.1.1");
    ThreeHundred();
    assert !IsOctet("300");
  }

  lemma ThreeHundred()
    ensures DecimalValue("300") == 300
  {
    assert "300"[..2] == "30" && "30"[..1] == "3" && "3"[..0] == "";
    assert DecimalValue("3") == 3;
    assert DecimalValue("30") == 30;
  }
}
