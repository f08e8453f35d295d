/** Hexadecimal text: `hashlib`'s `hexdigest()` (always lower case) and
    Python's `bytes.fromhex`, which accepts either case and skips ASCII
    whitespace between digit pairs, but not inside a pair. */
module HexCodec {
  import opened Bytes
  import opened Digests
  import opened Results

  predicate IsHexChar(c: char) {
    '0' <= c <= '9' || 'a' <= c <= 'f' || 'A' <= c <= 'F'
  }

  predicate IsLowerHexChar(c: char) {
    '0' <= c <= '9' || 'a' <= c <= 'f'
  }

  predicate IsLowerHex(s: string) {
    forall i :: 0 <= i < |s| ==> IsLowerHexChar(s[i])
  }

  /** The ASCII whitespace `bytes.fromhex` skips: space, tab, line feed,
      vertical tab, form feed and carriage return. */
  predicate IsSpace(c: char) {
    c == ' ' || '\t' <= c <= '\r'
  }

  predicate HasNoSpace(s: string) {
    forall i :: 0 <= i < |s| ==> !IsSpace(s[i])
  }

  function DigitValue(c: char): (v: nat)
    requires IsHexChar(c)
    ensures v < 16
  {
    if '0' <= c <= '9' then c as int - '0' as int
    else if 'a' <= c <= 'f' then c as int - 'a' as int + 10
    else c as int - 'A' as int + 10
  }

  /** The lower-case digit for `n`; reading it back gives `n`. */
  function Digit(n: nat): (c: char)
    requires n < 16
    ensures IsLowerHexChar(c) && DigitValue(c) == n
  {
    if n < 10 then ('0' as int + n) as char else ('a' as int + n - 10) as char
  }

  /** The two digits of one byte, high nibble first. */
  function ByteDigits(b: byte): (s: string)
    ensures |s| == 2 && IsLowerHexChar(s[0]) && IsLowerHexChar(s[1])
    ensures DigitValue(s[0]) * 16 + DigitValue(s[1]) == b as int
  {
    [Digit(b as int / 16), Digit(b as int % 16)]
  }

  /** `hexdigest()`: two lower-case digits per byte. */
  function Hex(bs: seq<byte>): (s: string)
    ensures |s| == 2 * |bs|
    ensures IsLowerHex(s)
  {
    if |bs| == 0 then [] else ByteDigits(bs[0]) + Hex(bs[1..])
  }

  /** `hashlib.sha256(x).hexdigest()`; `sha256hex(x)` is assumed to be the
      same function. */
  function HexDigest(sha: Sha256, x: seq<byte>): (s: string)
    ensures |s| == 2 * DigestLength && IsLowerHex(s)
    ensures FromHex(s) == Success(sha(x))
  {
    FromHexOfHex(sha(x));
    Hex(sha(x))
  }

  /** The byte a pair of hex digits denotes. */
  function PairValue(hi: char, lo: char): byte
    requires IsHexChar(hi) && IsHexChar(lo)
  {
    (DigitValue(hi) * 16 + DigitValue(lo)) as byte
  }

  /** `bytes.fromhex(s)`. */
  function FromHex(s: string): (r: Result<seq<byte>>)
    ensures r.Failure? ==> r.error == NonHexDigit
    ensures r.Success? ==> 2 * |r.value| <= |s|
    decreases |s|
  {
    if |s| == 0 then Success([])
    else if IsSpace(s[0]) then FromHex(s[1..])
    else if !IsHexChar(s[0]) || |s| == 1 || !IsHexChar(s[1]) then Failure(NonHexDigit)
    else
      match FromHex(s[2..])
      case Success(rest) => Success([PairValue(s[0], s[1])] + rest)
      case Failure(e) => Failure(e)
  }

  /** Hex text of a concatenation is the concatenation of the hex texts. */
  lemma {:induction false} HexAppend(a: seq<byte>, b: seq<byte>)
    ensures Hex(a + b) == Hex(a) + Hex(b)
  {
    if |a| > 0 {
      calc {
        Hex(a + b);
        { assert (a + b)[1..] == a[1..] + b; }
        ByteDigits(a[0]) + Hex(a[1..] + b);
        { HexAppend(a[1..], b); }
        Hex(a) + Hex(b);
      }
    } else {
      assert a + b == b;
    }
  }

  /** The first `2 * k` digits of `Hex(bs)` are the hex text of the first `k` bytes. */
  lemma HexPrefix(bs: seq<byte>, k: nat)
    requires k <= |bs|
    ensures Hex(bs)[..2 * k] == Hex(bs[..k])
  {
    assert bs == bs[..k] + bs[k..];
    HexAppend(bs[..k], bs[k..]);
  }

  lemma PairOfByteDigits(b: byte)
    ensures PairValue(ByteDigits(b)[0], ByteDigits(b)[1]) == b
  {
    var s := ByteDigits(b);
    var n := DigitValue(s[0]) * 16 + DigitValue(s[1]);
    assert n == b as int;
    assert (n as byte) as int == n;
  }

  /** `bytes.fromhex` undoes `hexdigest()`. */
  lemma {:induction false} FromHexOfHex(bs: seq<byte>)
    ensures FromHex(Hex(bs)) == Success(bs)
  {
    if |bs| > 0 {
      var s := Hex(bs);
      assert s[..2] == ByteDigits(bs[0]) && s[2..] == Hex(bs[1..]);
      FromHexOfHex(bs[1..]);
      PairOfByteDigits(bs[0]);
      assert bs == [bs[0]] + bs[1..];
    }
  }

  /** Without whitespace, `bytes.fromhex` succeeds exactly on even-length
      strings of hex digits, and then yields one byte per digit pair. */
  lemma {:induction false} FromHexAccepts(s: string)
    requires HasNoSpace(s)
    ensures FromHex(s).Success? <==> |s| % 2 == 0 && forall i :: 0 <= i < |s| ==> IsHexChar(s[i])
    ensures FromHex(s).Success? ==> |FromHex(s).value| == |s| / 2
    decreases |s|
  {
    if |s| >= 2 {
      var t := s[2..];
      assert forall i :: 0 <= i < |t| ==> t[i] == s[i + 2];
      FromHexAccepts(t);
      if |s| % 2 == 0 && IsHexChar(s[0]) && IsHexChar(s[1]) && FromHex(t).Failure? {
        var i :| 0 <= i < |t| && !IsHexChar(t[i]);
        assert !IsHexChar(s[i + 2]);
      }
    }
  }

  /** Reading a lower-case digit pair and printing the byte gives the pair back. */
  lemma ByteDigitsOfPair(hi: char, lo: char)
    requires IsLowerHexChar(hi) && IsLowerHexChar(lo)
    ensures ByteDigits(PairValue(hi, lo)) == [hi, lo]
  {
    var h, l := DigitValue(hi), DigitValue(lo);
    var n := h * 16 + l;
    assert n / 16 == h && n % 16 == l;
    LowerDigitUnique(hi, h);
    LowerDigitUnique(lo, l);
  }

  /** Every even-length lower-case hex string is some `hexdigest()`: the two
      functions are inverse bijections between byte strings and such texts. */
  lemma {:induction false} HexOfFromHex(s: string)
    requires IsLowerHex(s) && |s| % 2 == 0
    ensures FromHex(s).Success? && Hex(FromHex(s).value) == s
    decreases |s|
  {
    if |s| > 0 {
      var t := s[2..];
      assert IsLowerHex(t) by {
        assert forall i :: 0 <= i < |t| ==> t[i] == s[i + 2];
      }
      HexOfFromHex(t);
      var b := PairValue(s[0], s[1]);
      ByteDigitsOfPair(s[0], s[1]);
      var rest := FromHex(t).value;
      assert FromHex(s) == Success([b] + rest);
      assert ([b] + rest)[1..] == rest;
      assert s == [s[0], s[1]] + t;
    }
  }

  /** A lower-case hex digit is the one `Digit` gives for its value. */
  lemma LowerDigitUnique(c: char, n: nat)
    requires IsLowerHexChar(c) && n < 16 && DigitValue(c) == n
    ensures Digit(n) == c
  {
  }
}
