/** The fixed 16-byte fragment header: `struct.pack("<IIII", ...)` and `struct.unpack` with the
    format of src/pystream/constants.py, written out as four little-endian unsigned 32-bit fields. */
module HeaderCodec {
  import opened Exceptions
  import opened Bytes

  /** struct.calcsize("<IIII") */
  const PACKET_HEADER_SIZE: nat := 16
  /** The IPv4 limit on a UDP payload: 65535 - 8 (UDP header) - 20 (IP header). */
  const PACKET_MAX_SIZE: nat := 65507
  const U32_BOUND: int := 0x1_0000_0000

  /** The values format code `I` accepts. */
  predicate IsU32(v: int) { 0 <= v < U32_BOUND }

  /** 256 to the power n: the number of values n bytes hold. */
  function Pow256(n: nat): (r: nat)
    ensures r > 0
  {
    if n == 0 then 1 else 256 * Pow256(n - 1)
  }

  /** v as n bytes, least significant byte first. */
  function EncodeLE(v: nat, n: nat): (r: seq<byte>)
    requires v < Pow256(n)
    ensures |r| == n
  {
    if n == 0 then [] else [v % 256] + EncodeLE(v / 256, n - 1)
  }

  /** The value of a little-endian byte string. */
  function DecodeLE(s: seq<byte>): (v: nat)
    ensures v < Pow256(|s|)
  {
    if s == [] then 0 else s[0] + 256 * DecodeLE(s[1..])
  }

  lemma {:induction false} DecodeEncodeLE(v: nat, n: nat)
    requires v < Pow256(n)
    ensures DecodeLE(EncodeLE(v, n)) == v
  {
    if n > 0 {
      var r := EncodeLE(v, n);
      assert r[1..] == EncodeLE(v / 256, n - 1);
      DecodeEncodeLE(v / 256, n - 1);
    }
  }

  lemma {:induction false} EncodeDecodeLE(s: seq<byte>)
    ensures EncodeLE(DecodeLE(s), |s|) == s
  {
    if s != [] {
      var v := DecodeLE(s);
      var q := DecodeLE(s[1..]);
      assert v / 256 == q && v % 256 == s[0];
      EncodeDecodeLE(s[1..]);
    }
  }

  lemma MulNonnegative(a: int, b: int)
    requires a >= 0 && b >= 0
    ensures a * b >= 0
  {
  }

  /** The quotient x / d is the n with n * d <= x < (n + 1) * d. */
  lemma DivisionUnique(x: int, d: int, n: int)
    requires d > 0 && n * d <= x < n * d + d
    ensures x / d == n
  {
    var q, r := x / d, x % d;
    assert x == q * d + r && 0 <= r < d;
    var t := q - n;
    assert t * d == q * d - n * d;
    if t >= 1 {
      MulNonnegative(t - 1, d);
    } else if t <= -1 {
      MulNonnegative(-t - 1, d);
    }
  }

  /** (v / a) / b is v / (a * b): dropping a low digits and then b more. */
  lemma DivDiv(v: nat, a: nat, b: nat)
    requires a > 0 && b > 0
    ensures (v / a) / b == v / (a * b)
  {
    var q, r := v / a, v % a;
    var q2, r2 := q / b, q % b;
    assert v == a * q + r && q == b * q2 + r2;
    assert a * q == a * b * q2 + a * r2;
    MulNonnegative(a, b - 1 - r2);
    assert a * (b - 1 - r2) == a * b - a - a * r2;
    MulNonnegative(a, r2);
    DivisionUnique(v, a * b, q2);
  }

  /** Byte j of the n-byte little-endian encoding of v is digit j of v in base 256: the least
      significant byte comes first. */
  lemma {:induction false} EncodeLEBytes(v: nat, n: nat, j: nat)
    requires v < Pow256(n) && j < n
    ensures EncodeLE(v, n)[j] == (v / Pow256(j)) % 256
  {
    if j > 0 {
      assert EncodeLE(v, n)[j] == EncodeLE(v / 256, n - 1)[j - 1];
      EncodeLEBytes(v / 256, n - 1, j - 1);
      DivDiv(v, 256, Pow256(j - 1));
    }
  }

  /** One unsigned 32-bit value, least significant byte first: format code `I` with `<`. */
  function EncodeU32(v: int): (r: seq<byte>)
    requires IsU32(v)
    ensures |r| == 4
  {
    EncodeLE(v, 4)
  }

  function DecodeU32(s: seq<byte>): (v: int)
    requires |s| == 4
    ensures IsU32(v)
  {
    DecodeLE(s)
  }

  lemma DecodeEncodeU32(v: int)
    requires IsU32(v)
    ensures DecodeU32(EncodeU32(v)) == v
  {
    DecodeEncodeLE(v, 4);
  }

  lemma EncodeDecodeU32(s: seq<byte>)
    requires |s| == 4
    ensures EncodeU32(DecodeU32(s)) == s
  {
    EncodeDecodeLE(s);
  }

  /** The four header fields, in wire order. */
  datatype Header = Header(metadata: int, dataIndex: int, packetIndex: int, packetCount: int)

  /** Every field fits format code `I`. */
  predicate Packable(h: Header) {
    IsU32(h.metadata) && IsU32(h.dataIndex) && IsU32(h.packetIndex) && IsU32(h.packetCount)
  }

  /** `struct.pack("<IIII", metadata, data_index, packet_index, packet_count)`. */
  function Pack(h: Header): (r: Result<seq<byte>>)
    ensures r.Ok? <==> Packable(h)
    ensures r.Err? ==> r.error == StructError
    ensures r.Ok? ==> |r.value| == PACKET_HEADER_SIZE
  {
    if Packable(h) then
      Ok(EncodeU32(h.metadata) + EncodeU32(h.dataIndex) + EncodeU32(h.packetIndex) + EncodeU32(h.packetCount))
    else
      Err(StructError)
  }

  /** `struct.unpack("<IIII", s)`: the buffer must be exactly 16 bytes long. */
  function Unpack(s: seq<byte>): (r: Result<Header>)
    ensures r.Ok? <==> |s| == PACKET_HEADER_SIZE
    ensures r.Err? ==> r.error == StructError
    ensures r.Ok? ==> Packable(r.value)
  {
    if |s| == PACKET_HEADER_SIZE then
      Ok(Header(DecodeU32(s[0..4]), DecodeU32(s[4..8]), DecodeU32(s[8..12]), DecodeU32(s[12..16])))
    else
      Err(StructError)
  }

  /** The value of four bytes read least significant first. */
  function Word(s: seq<byte>, at: nat): int
    requires at + 4 <= |s|
  {
    s[at] as int + 256 * (s[at + 1] as int) + 65536 * (s[at + 2] as int) + 16777216 * (s[at + 3] as int)
  }

  /** The wire layout of `"<IIII"`: bytes 4f..4f+3 hold field f (metadata, data_index,
      packet_index, packet_count in that order), least significant byte first. */
  lemma PackLayout(h: Header)
    requires Packable(h)
    ensures var s := Pack(h).value;
      forall j :: 0 <= j < 4 ==>
        s[j] == (h.metadata / Pow256(j)) % 256 &&
        s[4 + j] == (h.dataIndex / Pow256(j)) % 256 &&
        s[8 + j] == (h.packetIndex / Pow256(j)) % 256 &&
        s[12 + j] == (h.packetCount / Pow256(j)) % 256
  {
    var s := Pack(h).value;
    forall j | 0 <= j < 4
      ensures s[j] == (h.metadata / Pow256(j)) % 256 &&
        s[4 + j] == (h.dataIndex / Pow256(j)) % 256 &&
        s[8 + j] == (h.packetIndex / Pow256(j)) % 256 &&
        s[12 + j] == (h.packetCount / Pow256(j)) % 256
    {
      EncodeLEBytes(h.metadata, 4, j);
      EncodeLEBytes(h.dataIndex, 4, j);
      EncodeLEBytes(h.packetIndex, 4, j);
      EncodeLEBytes(h.packetCount, 4, j);
    }
  }

  /** Unpacking reads the same layout: field f is the little-endian value of bytes 4f..4f+3. */
  lemma UnpackLayout(s: seq<byte>)
    requires |s| == PACKET_HEADER_SIZE
    ensures Unpack(s) == Ok(Header(Word(s, 0), Word(s, 4), Word(s, 8), Word(s, 12)))
  {
    DecodeWord(s, 0);
    DecodeWord(s, 4);
    DecodeWord(s, 8);
    DecodeWord(s, 12);
  }

  lemma DecodeWord(s: seq<byte>, at: nat)
    requires at + 4 <= |s|
    ensures DecodeU32(s[at..at + 4]) == Word(s, at)
  {
    var w := s[at..at + 4];
    assert DecodeLE(w) == w[0] + 256 * DecodeLE(w[1..]);
    assert DecodeLE(w[1..]) == w[1] + 256 * DecodeLE(w[2..]) by { assert w[1..][1..] == w[2..]; }
    assert DecodeLE(w[2..]) == w[2] + 256 * DecodeLE(w[3..]) by { assert w[2..][1..] == w[3..]; }
    assert DecodeLE(w[3..]) == w[3] + 256 * DecodeLE(w[4..]) by { assert w[3..][1..] == w[4..]; }
    assert w[4..] == [];
  }

  /** Unpacking what Pack produced gives back the four fields. */
  lemma UnpackPack(h: Header)
    requires Packable(h)
    ensures Unpack(Pack(h).value) == Ok(h)
  {
    var s := Pack(h).value;
    assert s[0..4] == EncodeU32(h.metadata);
    assert s[4..8] == EncodeU32(h.dataIndex);
    assert s[8..12] == EncodeU32(h.packetIndex);
    assert s[12..16] == EncodeU32(h.packetCount);
    DecodeEncodeU32(h.metadata);
    DecodeEncodeU32(h.dataIndex);
    DecodeEncodeU32(h.packetIndex);
    DecodeEncodeU32(h.packetCount);
  }

  /** Every 16-byte string is the packing of the header it unpacks to. */
  lemma PackUnpack(s: seq<byte>)
    requires |s| == PACKET_HEADER_SIZE
    ensures Pack(Unpack(s).value) == Ok(s)
  {
    EncodeDecodeU32(s[0..4]);
    EncodeDecodeU32(s[4..8]);
    EncodeDecodeU32(s[8..12]);
    EncodeDecodeU32(s[12..16]);
    assert s == s[0..4] + s[4..8] + s[8..12] + s[12..16];
  }

  /** A packet is a packed header followed by a payload; the receiver splits it at byte 16. */
  lemma SplitPacket(h: Header, payload: seq<byte>)
    requires Packable(h)
    ensures var p := Pack(h).value + payload;
      |p| == PACKET_HEADER_SIZE + |payload| &&
      Unpack(p[..PACKET_HEADER_SIZE]) == Ok(h) && p[PACKET_HEADER_SIZE..] == payload
  {
    var p := Pack(h).value + payload;
    assert p[..PACKET_HEADER_SIZE] == Pack(h).value;
    UnpackPack(h);
  }
}
