/** Variable-length integers (section 16 of RFC 9000): scripts/lib/quic_command_center/varint.py,
    proved inverse to an encoder written from the standard. */
module Varint {

  newtype byte = x: int | 0 <= x < 256

  datatype Decoded = Decoded(value: nat, length: nat)
  datatype DecodeResult = Ok(decoded: Decoded) | EmptyBuffer | Truncated

  function Pow(b: nat, n: nat): (r: nat)
  {
    if n == 0 then 1 else b * Pow(b, n - 1)
  }

  /** Big-endian value of a byte string appended to `high`. */
  function BigEndian(high: nat, bytes: seq<byte>): nat {
    if bytes == [] then high else BigEndian(high, bytes[..|bytes| - 1]) * 256 + bytes[|bytes| - 1] as nat
  }

  /** The n low-order bytes of v, most significant first. */
  function BytesOf(v: nat, n: nat): (r: seq<byte>)
    ensures |r| == n
  {
    if n == 0 then [] else BytesOf(v / 256, n - 1) + [(v % 256) as byte]
  }

  /** The encoded length announced by the two leading bits: 1 << (first >> 6). */
  function Length(first: byte): (n: nat)
    ensures n in {1, 2, 4, 8}
  {
    var prefix := first as nat / 64;
    if prefix == 0 then 1 else if prefix == 1 then 2 else if prefix == 2 then 4 else 8
  }

  function LengthPrefix(length: nat): (p: nat)
    requires length in {1, 2, 4, 8}
    ensures p < 4
  {
    if length == 1 then 0 else if length == 2 then 1 else if length == 4 then 2 else 3
  }

  /** 2^(8 length - 2), the first value that does not fit. */
  function Limit(length: nat): nat
    requires length in {1, 2, 4, 8}
  {
    64 * Pow(256, length - 1)
  }

  /** The encoding of v in a given length: two length bits, then v in network byte order. */
  function Encode(v: nat, length: nat): (r: seq<byte>)
    requires length in {1, 2, 4, 8} && v < Limit(length)
    ensures |r| == length
  {
    HighPart(v, length - 1);
    [(LengthPrefix(length) * 64 + v / Pow(256, length - 1)) as byte] + BytesOf(v, length - 1)
  }

  lemma {:induction false} PowPositive(b: nat, n: nat)
    requires b > 0
    ensures Pow(b, n) > 0
  {
    if n > 0 {
      PowPositive(b, n - 1);
      assert b * Pow(b, n - 1) >= Pow(b, n - 1);
    }
  }

  lemma MulMono(a: nat, b: nat, d: nat)
    ensures a <= b ==> a * d <= b * d
  {
  }

  lemma QuotientBelow(v: nat, p: nat, k: nat)
    requires p > 0
    ensures v < k * p ==> v / p < k
  {
    var q := v / p;
    assert v == p * q + v % p;
    MulMono(k, q, p);
  }

  lemma HighPart(v: nat, n: nat)
    ensures Pow(256, n) > 0
    ensures v < 64 * Pow(256, n) ==> v / Pow(256, n) < 64
  {
    PowPositive(256, n);
    QuotientBelow(v, Pow(256, n), 64);
  }

  /** `decode_varint`: the shift-and-or loop. */
  method DecodeVarint(buf: seq<byte>, offset: nat) returns (r: DecodeResult)
    ensures r.EmptyBuffer? <==> offset >= |buf|
    ensures r.Truncated? <==> offset < |buf| < offset + Length(buf[offset])
    ensures r.Ok? ==> r.decoded == Decoded(DecodedValue(buf, offset), Length(buf[offset]))
  {
    if offset >= |buf| {
      return EmptyBuffer;
    }
    var first := buf[offset];
    var length := Length(first);
    if offset + length > |buf| {
      return Truncated;
    }
    var value := first as nat % 64;
    var rest := buf[offset + 1..offset + length];
    for i := 1 to length
      invariant value == BigEndian(first as nat % 64, rest[..i - 1])
    {
      assert rest[..i][..i - 1] == rest[..i - 1] && rest[i - 1] == buf[offset + i];
      value := value * 256 + buf[offset + i] as nat;
    }
    assert rest[..length - 1] == rest;
    return Ok(Decoded(value, length));
  }

  function DecodedValue(buf: seq<byte>, offset: nat): nat
    requires offset < |buf| && offset + Length(buf[offset]) <= |buf|
  {
    BigEndian(buf[offset] as nat % 64, buf[offset + 1..offset + Length(buf[offset])])
  }

  // ----- decoding inverts encoding

  lemma {:induction false} BytesRoundTrip(v: nat, n: nat)
    ensures Pow(256, n) > 0 && BigEndian(v / Pow(256, n), BytesOf(v, n)) == v
  {
    PowPositive(256, n);
    if n > 0 {
      BytesRoundTrip(v / 256, n - 1);
      var bs := BytesOf(v, n);
      assert bs[..n - 1] == BytesOf(v / 256, n - 1);
      DivDiv(v, Pow(256, n - 1));
    }
  }

  lemma DivDiv(v: nat, p: nat)
    requires p > 0
    ensures 256 * p > 0 && v / 256 / p == v / (256 * p)
  {
    var a := v / 256;
    var q, r := a / p, a % p;
    assert v == 256 * a + v % 256 && a == p * q + r;
    assert v == (256 * p) * q + (256 * r + v % 256);
    DivUnique(v, 256 * p, q, 256 * r + v % 256);
  }

  lemma DivUnique(v: nat, d: nat, q: nat, r: nat)
    requires d > 0 && v == d * q + r && r < d
    ensures v / d == q && v % d == r
  {
    var q', r' := v / d, v % d;
    assert d * q' + r' == d * q + r;
    MulMono(q' + 1, q, d);
    MulMono(q + 1, q', d);
  }

  lemma {:induction false} BigEndianBounds(high: nat, bytes: seq<byte>)
    ensures Pow(256, |bytes|) > 0
    ensures high * Pow(256, |bytes|) <= BigEndian(high, bytes) < (high + 1) * Pow(256, |bytes|)
  {
    PowPositive(256, |bytes|);
    if bytes != [] {
      var n := |bytes| - 1;
      BigEndianBounds(high, bytes[..n]);
      var p, x := Pow(256, n), BigEndian(high, bytes[..n]);
      assert high * p * 256 <= x * 256 && (x + 1) * 256 <= (high + 1) * p * 256;
      assert high * (256 * p) == high * p * 256 && (high + 1) * (256 * p) == (high + 1) * p * 256;
    }
  }

  lemma LengthOf(length: nat, high: nat, first: byte)
    requires length in {1, 2, 4, 8} && high < 64 && first as nat == LengthPrefix(length) * 64 + high
    ensures Length(first) == length && first as nat % 64 == high
  {
  }

  lemma Middle(before: seq<byte>, code: seq<byte>, after: seq<byte>)
    requires code != []
    ensures var buf, i := before + code + after, |before|;
            buf[i] == code[0] && buf[i + 1..i + |code|] == code[1..]
  {
  }

  /** At any offset, with anything after it, the decoder gets back what was encoded. */
  lemma DecodeInvertsEncode(before: seq<byte>, v: nat, length: nat, after: seq<byte>)
    requires length in {1, 2, 4, 8} && v < Limit(length)
    ensures var buf := before + Encode(v, length) + after;
            Length(buf[|before|]) == length && DecodedValue(buf, |before|) == v
  {
    var code := Encode(v, length);
    HighPart(v, length - 1);
    LengthOf(length, v / Pow(256, length - 1), code[0]);
    Middle(before, code, after);
    assert code[1..] == BytesOf(v, length - 1);
    BytesRoundTrip(v, length - 1);
  }

  lemma {:induction false} BytesOfBigEndian(high: nat, bytes: seq<byte>)
    ensures BytesOf(BigEndian(high, bytes), |bytes|) == bytes
  {
    if bytes != [] {
      var n := |bytes| - 1;
      BytesOfBigEndian(high, bytes[..n]);
      var v := BigEndian(high, bytes[..n]);
      DivUnique(v * 256 + bytes[n] as nat, 256, v, bytes[n] as nat);
      assert bytes == bytes[..n] + [bytes[n]];
    }
  }

  /** Conversely, whatever decodes is the encoding of the value returned, which is below
      2^(8 length - 2): distinct encodings of one length stand for distinct values. */
  lemma EncodeInvertsDecode(buf: seq<byte>, offset: nat)
    requires offset < |buf| && offset + Length(buf[offset]) <= |buf|
    ensures var v, length := DecodedValue(buf, offset), Length(buf[offset]);
            v < Limit(length) && buf[offset..offset + length] == Encode(v, length)
  {
    var first := buf[offset];
    var length := Length(first);
    var high, bytes := first as nat % 64, buf[offset + 1..offset + length];
    SplitHigh(high, bytes);
    BytesOfBigEndian(high, bytes);
    assert buf[offset..offset + length] == [first] + bytes;
  }

  lemma SplitHigh(high: nat, bytes: seq<byte>)
    requires high < 64
    ensures Pow(256, |bytes|) > 0
    ensures var v := BigEndian(high, bytes); v < 64 * Pow(256, |bytes|) && v / Pow(256, |bytes|) == high
  {
    BigEndianBounds(high, bytes);
    var v, p := BigEndian(high, bytes), Pow(256, |bytes|);
    MulMono(high + 1, 64, p);
    assert (high + 1) * p == high * p + p;
    DivUnique(v, p, high, v - high * p);
  }

  lemma BigEndianSnoc(high: nat, bytes: seq<byte>, b: byte)
    ensures BigEndian(high, bytes + [b]) == BigEndian(high, bytes) * 256 + b as nat
  {
    assert (bytes + [b])[..|bytes|] == bytes;
  }

  lemma ThreeBytes(high: nat, a: byte, b: byte, c: byte)
    ensures BigEndian(high, [a, b, c]) == ((high * 256 + a as nat) * 256 + b as nat) * 256 + c as nat
  {
    BigEndianSnoc(high, [], a);
    BigEndianSnoc(high, [a], b);
    BigEndianSnoc(high, [a, b], c);
    assert [] + [a] == [a] && [a] + [b] == [a, b] && [a, b] + [c] == [a, b, c];
  }

  /** The examples of appendix A.1 of RFC 9000, in one, two and four bytes. */
  lemma StandardExamples()
    ensures DecodedValue([0x25], 0) == 37
    ensures DecodedValue([0x7b, 0xbd], 0) == 15293
    ensures DecodedValue([0x9d, 0x7f, 0x3e, 0x7d], 0) == 494878333
  {
    assert [0x25][1..1] == [];
    BigEndianSnoc(0x3b, [], 0xbd);
    assert [0x7b, 0xbd][1..2] == [] + [0xbd];
    ThreeBytes(0x1d, 0x7f, 0x3e, 0x7d);
    assert [0x9d, 0x7f, 0x3e, 0x7d][1..4] == [0x7f, 0x3e, 0x7d];
  }
}
