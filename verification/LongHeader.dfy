/** QUIC long headers (section 17.2 of RFC 9000): scripts/lib/quic_command_center/header.py,
    proved inverse to serialisation.  Like the source, it accepts connection IDs of up to 255
    bytes, where version 1 of the protocol stops at 20. */
module LongHeader {
  import opened Common
  import opened Varint

  datatype Header = Header(version: nat, dcidLen: nat, scidLen: nat, dcidHex: string, scidHex: string,
                           isInitial: bool, consumed: nat)

  // ----- hexadecimal text

  const DIGITS := "0123456789abcdef"

  function Hex(bytes: seq<byte>): (r: string)
    ensures |r| == 2 * |bytes|
  {
    if bytes == [] then ""
    else [DIGITS[bytes[0] as nat / 16], DIGITS[bytes[0] as nat % 16]] + Hex(bytes[1..])
  }

  /** The value of a hexadecimal digit. */
  function DigitValue(c: char): int {
    if c <= '9' then c as int - '0' as int else c as int - 'a' as int + 10
  }

  lemma DigitsRead(n: nat)
    requires n < 16
    ensures DigitValue(DIGITS[n]) == n
  {
  }

  /** Two digits a byte, in base 16, the high one first: reading the text gives back the bytes. */
  lemma {:induction false} HexReads(bytes: seq<byte>, i: nat)
    requires i < |bytes|
    ensures 16 * DigitValue(Hex(bytes)[2 * i]) + DigitValue(Hex(bytes)[2 * i + 1]) == bytes[i] as int
  {
    if i == 0 {
      DigitsRead(bytes[0] as nat / 16);
      DigitsRead(bytes[0] as nat % 16);
    } else {
      HexReads(bytes[1..], i - 1);
      assert Hex(bytes)[2..] == Hex(bytes[1..]);
    }
  }

  lemma DigitsDistinct(a: nat, b: nat)
    requires a < 16 && b < 16 && DIGITS[a] == DIGITS[b]
    ensures a == b
  {
  }

  /** The hexadecimal text determines the connection ID. */
  lemma {:induction false} HexInjective(a: seq<byte>, b: seq<byte>)
    requires Hex(a) == Hex(b)
    ensures a == b
  {
    assert |a| == |b|;
    if a != [] {
      assert Hex(a)[0] == Hex(b)[0] && Hex(a)[1] == Hex(b)[1];
      DigitsDistinct(a[0] as nat / 16, b[0] as nat / 16);
      DigitsDistinct(a[0] as nat % 16, b[0] as nat % 16);
      assert Hex(a[1..]) == Hex(a)[2..] && Hex(b[1..]) == Hex(b)[2..];
      HexInjective(a[1..], b[1..]);
      assert a == [a[0]] + a[1..] && b == [b[0]] + b[1..];
    }
  }

  // ----- parsing

  /** A long-form first byte and enough bytes for both length-prefixed connection IDs. */
  predicate Complete(buf: seq<byte>) {
    && |buf| >= 6 && buf[0] >= 128
    && |buf| >= 7 + DcidLen(buf)
    && |buf| >= 7 + DcidLen(buf) + ScidLen(buf)
  }

  function DcidLen(buf: seq<byte>): nat
    requires |buf| >= 6
  {
    buf[5] as nat
  }

  function ScidLen(buf: seq<byte>): nat
    requires |buf| >= 6 && |buf| >= 7 + DcidLen(buf)
  {
    buf[6 + DcidLen(buf)] as nat
  }

  function HeaderOf(buf: seq<byte>): Header
    requires Complete(buf)
  {
    var d, s := DcidLen(buf), ScidLen(buf);
    Header(BigEndian(0, buf[1..5]), d, s, Hex(buf[6..6 + d]), Hex(buf[7 + d..7 + d + s]), buf[0] as nat / 16 == 12, 7 + d + s)
  }

  /** `parse_long_header`, with its moving cursor. */
  method ParseLongHeader(buf: seq<byte>) returns (r: Option<Header>)
    ensures r == if Complete(buf) then Some(HeaderOf(buf)) else None
  {
    if |buf| < 6 {
      return None;
    }
    var first := buf[0];
    if (first as nat / 128) % 2 == 0 {
      return None;
    }
    var version := BigEndian(0, buf[1..5]);
    var ptr := 5;
    assert ptr < |buf|;
    var dcidLen := buf[ptr] as nat;
    ptr := ptr + 1;
    if ptr + dcidLen > |buf| {
      return None;
    }
    var dcid := buf[ptr..ptr + dcidLen];
    ptr := ptr + dcidLen;
    if ptr >= |buf| {
      return None;
    }
    var scidLen := buf[ptr] as nat;
    ptr := ptr + 1;
    if ptr + scidLen > |buf| {
      return None;
    }
    var scid := buf[ptr..ptr + scidLen];
    ptr := ptr + scidLen;
    return Some(Header(version, dcidLen, scidLen, Hex(dcid), Hex(scid), first as nat / 16 == 12, ptr));
  }

  // ----- serialisation

  ghost predicate Serialisable(first: byte, version: nat, dcid: seq<byte>, scid: seq<byte>) {
    first >= 128 && version < Pow(256, 4) && |dcid| < 256 && |scid| < 256
  }

  function Serialise(first: byte, version: nat, dcid: seq<byte>, scid: seq<byte>): (r: seq<byte>)
    requires |dcid| < 256 && |scid| < 256
    ensures |r| == 7 + |dcid| + |scid|
  {
    [first] + BytesOf(version, 4) + [|dcid| as byte] + dcid + [|scid| as byte] + scid
  }

  lemma Layout(first: byte, version: nat, dcid: seq<byte>, scid: seq<byte>, rest: seq<byte>)
    requires |dcid| < 256 && |scid| < 256
    ensures var buf := Serialise(first, version, dcid, scid) + rest;
            && |buf| == 7 + |dcid| + |scid| + |rest|
            && buf[0] == first && buf[1..5] == BytesOf(version, 4)
            && buf[5] as nat == |dcid| && buf[6..6 + |dcid|] == dcid
            && buf[6 + |dcid|] as nat == |scid| && buf[7 + |dcid|..7 + |dcid| + |scid|] == scid
  {
  }

  /** Parsing inverts serialisation, consumes 7 + dcid + scid bytes and ignores the rest. */
  lemma ParseInvertsSerialise(first: byte, version: nat, dcid: seq<byte>, scid: seq<byte>, rest: seq<byte>)
    requires Serialisable(first, version, dcid, scid)
    ensures var buf := Serialise(first, version, dcid, scid) + rest;
            Complete(buf) && HeaderOf(buf) == Header(version, |dcid|, |scid|, Hex(dcid), Hex(scid), first as nat / 16 == 12,
                                                     7 + |dcid| + |scid|)
  {
    Layout(first, version, dcid, scid, rest);
    BytesRoundTrip(version, 4);
    DivUnique(version, Pow(256, 4), 0, version);
  }

  /** Whatever parses begins with the serialisation of what was parsed. */
  lemma SerialiseInvertsParse(buf: seq<byte>)
    requires Complete(buf)
    ensures var h := HeaderOf(buf);
            var dcid, scid := buf[6..6 + h.dcidLen], buf[7 + h.dcidLen..7 + h.dcidLen + h.scidLen];
            && Serialisable(buf[0], h.version, dcid, scid)
            && buf[..h.consumed] == Serialise(buf[0], h.version, dcid, scid)
            && h.dcidHex == Hex(dcid) && h.scidHex == Hex(scid)
  {
    VersionBytes(buf[1..5]);
    Reassemble(buf, DcidLen(buf), ScidLen(buf));
  }

  lemma VersionBytes(bytes: seq<byte>)
    requires |bytes| == 4
    ensures BigEndian(0, bytes) < Pow(256, 4) && BytesOf(BigEndian(0, bytes), 4) == bytes
  {
    BytesOfBigEndian(0, bytes);
    BigEndianBounds(0, bytes);
  }

  lemma Reassemble(buf: seq<byte>, d: nat, s: nat)
    requires |buf| >= 7 + d + s && buf[5] as nat == d && buf[6 + d] as nat == s
    ensures buf[..7 + d + s] == [buf[0]] + buf[1..5] + [d as byte] + buf[6..6 + d] + [s as byte] + buf[7 + d..7 + d + s]
  {
  }

  /** A header cut off anywhere before its end does not parse. */
  lemma TruncationFails(first: byte, version: nat, dcid: seq<byte>, scid: seq<byte>, k: nat)
    requires |dcid| < 256 && |scid| < 256 && k < 7 + |dcid| + |scid|
    ensures !Complete(Serialise(first, version, dcid, scid)[..k])
  {
    var whole := Serialise(first, version, dcid, scid);
    Layout(first, version, dcid, scid, []);
    assert whole + [] == whole;
    var cut := whole[..k];
    if k >= 6 { assert cut[5] == whole[5]; }
    if k >= 7 + |dcid| { assert cut[6 + |dcid|] == whole[6 + |dcid|]; }
  }
}
