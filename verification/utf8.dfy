/** Python's `str.encode()`: the UTF-8 encoding of a string of Unicode
    scalar values. */
module Utf8 {
  import opened Bytes

  predicate IsAscii(c: char) {
    c as int < 0x80
  }

  /** A continuation byte `10xxxxxx` carrying the low six bits of `n`. */
  function Continuation(n: nat): byte {
    (0x80 + n % 0x40) as byte
  }

  /** A leading byte: the marker `mark` plus the high bits `n`, which fit. */
  function Leading(mark: nat, n: nat): byte
    requires mark + n < 0x100
  {
    (mark + n) as byte
  }

  /** The one to four bytes UTF-8 uses for one scalar value. */
  function EncodeChar(c: char): (bs: seq<byte>)
    ensures 1 <= |bs| <= 4
    ensures |bs| == 1 <==> IsAscii(c)
  {
    var cp := c as int;
    var q1 := cp / 0x40;
    var q2 := q1 / 0x40;
    var q3 := q2 / 0x40;
    if cp < 0x80 then
      [cp as byte]
    else if cp < 0x800 then
      [Leading(0xC0, q1), Continuation(cp)]
    else if cp < 0x1_0000 then
      [Leading(0xE0, q2), Continuation(q1), Continuation(cp)]
    else
      [Leading(0xF0, q3), Continuation(q2), Continuation(q1), Continuation(cp)]
  }

  function Encode(s: string): (bs: seq<byte>)
    ensures |s| <= |bs| <= 4 * |s|
  {
    if |s| == 0 then [] else EncodeChar(s[0]) + Encode(s[1..])
  }

  /** Encoding distributes over concatenation, so `(a + b).encode()` is
      `a.encode() + b.encode()`. */
  lemma {:induction false} EncodeAppend(a: string, b: string)
    ensures Encode(a + b) == Encode(a) + Encode(b)
  {
    if |a| > 0 {
      calc {
        Encode(a + b);
        { assert (a + b)[1..] == a[1..] + b; }
        EncodeChar(a[0]) + Encode(a[1..] + b);
        { EncodeAppend(a[1..], b); }
        Encode(a) + Encode(b);
      }
    } else {
      assert a + b == b;
    }
  }

  /** An ASCII string encodes to one byte per character. */
  lemma {:induction false} EncodeAscii(s: string)
    requires forall i :: 0 <= i < |s| ==> IsAscii(s[i])
    ensures |Encode(s)| == |s|
  {
    if |s| > 0 {
      EncodeAscii(s[1..]);
    }
  }

  /** The sequence length a leading byte announces. */
  function SequenceLength(b: byte): (n: nat)
    ensures 1 <= n <= 4
  {
    var v := b as int;
    if v < 0x80 then 1 else if v < 0xE0 then 2 else if v < 0xF0 then 3 else 4
  }

  /** The low six bits of a continuation byte. */
  function Payload6(b: byte): int {
    b as int - 0x80
  }

  /** The scalar value one sequence carries. */
  function ScalarOf(bs: seq<byte>): int
    requires 0 < |bs| && |bs| == SequenceLength(bs[0])
  {
    match |bs|
    case 1 => bs[0] as int
    case 2 => (bs[0] as int - 0xC0) * 0x40 + Payload6(bs[1])
    case 3 => ((bs[0] as int - 0xE0) * 0x40 + Payload6(bs[1])) * 0x40 + Payload6(bs[2])
    case 4 => (((bs[0] as int - 0xF0) * 0x40 + Payload6(bs[1])) * 0x40 + Payload6(bs[2])) * 0x40 + Payload6(bs[3])
  }

  /** A total UTF-8 decoder to scalar values; it is only ever applied to
      encoder output, where it inverts the encoder. */
  function Decode(bs: seq<byte>): seq<int>
    decreases |bs|
  {
    if |bs| == 0 then []
    else
      var n := SequenceLength(bs[0]);
      if |bs| < n then [] else [ScalarOf(bs[..n])] + Decode(bs[n..])
  }

  /** The scalar values of a string. */
  function CodePoints(s: string): (cps: seq<int>)
    ensures |cps| == |s|
  {
    if |s| == 0 then [] else [s[0] as int] + CodePoints(s[1..])
  }

  /** Decoding undoes `str.encode()`. */
  lemma {:induction false} DecodeEncode(s: string)
    ensures Decode(Encode(s)) == CodePoints(s)
  {
    if |s| > 0 {
      var head := EncodeChar(s[0]);
      var bs := Encode(s);
      DecodeEncodeChar(s[0]);
      assert bs[..|head|] == head && bs[|head|..] == Encode(s[1..]);
      DecodeEncode(s[1..]);
    }
  }

  /** Distinct strings have distinct encodings, so hashing `s.encode()`
      hashes `s` itself. */
  lemma {:induction false} EncodeInjective(a: string, b: string)
    requires Encode(a) == Encode(b)
    ensures a == b
  {
    DecodeEncode(a);
    DecodeEncode(b);
    CodePointsInjective(a, b);
  }

  lemma {:induction false} CodePointsInjective(a: string, b: string)
    requires CodePoints(a) == CodePoints(b)
    ensures a == b
  {
    if |a| > 0 {
      assert CodePoints(a)[0] == a[0] as int && CodePoints(b)[0] == b[0] as int;
      assert CodePoints(a)[1..] == CodePoints(a[1..]) && CodePoints(b)[1..] == CodePoints(b[1..]);
      CodePointsInjective(a[1..], b[1..]);
      assert a == [a[0]] + a[1..] && b == [b[0]] + b[1..];
    }
  }

  /** The bytes of one character announce their own length and decode
      back to its scalar value. */
  lemma DecodeEncodeChar(c: char)
    ensures SequenceLength(EncodeChar(c)[0]) == |EncodeChar(c)|
    ensures ScalarOf(EncodeChar(c)) == c as int
  {
    var cp := c as int;
    if cp >= 0x1_0000 {
      DecodeFour(cp);
    }
  }

  /** The four-byte case, whose arithmetic needs spelling out. */
  lemma DecodeFour(cp: int)
    requires 0x1_0000 <= cp < 0x11_0000
    ensures var q1 := cp / 0x40; var q2 := q1 / 0x40;
      var bs := [Leading(0xF0, q2 / 0x40), Continuation(q2), Continuation(q1), Continuation(cp)];
      SequenceLength(bs[0]) == 4 && ScalarOf(bs) == cp
  {
    var q1 := cp / 0x40;
    var q2 := q1 / 0x40;
    var q3 := q2 / 0x40;
    var bs := [Leading(0xF0, q3), Continuation(q2), Continuation(q1), Continuation(cp)];
    assert SequenceLength(bs[0]) == 4;
    var top := (bs[0] as int - 0xF0) * 0x40 + Payload6(bs[1]);
    assert top == q2 by {
      assert top == q3 * 0x40 + q2 % 0x40;
    }
    var upper := top * 0x40 + Payload6(bs[2]);
    assert upper == q1 by {
      assert upper == q2 * 0x40 + q1 % 0x40;
    }
    assert ScalarOf(bs) == upper * 0x40 + Payload6(bs[3]);
  }
}
