/** Hexadecimal digests (`hexdigest`, `hex.DecodeString`, `strings.EqualFold`). */
module Hex {
  import opened Bytes

  const DIGITS: string := "0123456789abcdef"

  function HexDigit(n: nat): (c: char)
    requires n < 16
    ensures IsHexDigit(c) && FoldCase(c) == c
  {
    DIGITS[n]
  }

  /** Both cases are digits to the decoder. */
  predicate IsHexDigit(c: char) {
    '0' <= c <= '9' || 'a' <= c <= 'f' || 'A' <= c <= 'F'
  }

  function ToHex(bytes: Bytes): (s: string)
    ensures |s| == 2 * |bytes|
    ensures forall i :: 0 <= i < |s| ==> IsHexDigit(s[i]) && FoldCase(s[i]) == s[i]
  {
    if bytes == [] then ""
    else [HexDigit(bytes[0] / 16), HexDigit(bytes[0] % 16)] + ToHex(bytes[1..])
  }

  /** `validSHA256Hex`, and Python's `_require_sha256` */
  predicate ValidSha256Hex(value: string) {
    |value| == 64 && forall i :: 0 <= i < |value| ==> IsHexDigit(value[i])
  }

  function FoldCase(c: char): char {
    if 'A' <= c <= 'Z' then c - 'A' + 'a' else c
  }

  /** `strings.EqualFold`, on the characters a digest consists of. */
  predicate EqualFold(s: string, t: string) {
    |s| == |t| && forall i :: 0 <= i < |s| ==> FoldCase(s[i]) == FoldCase(t[i])
  }

  lemma HexDigitInjective(n: nat, m: nat)
    requires n < 16 && m < 16 && HexDigit(n) == HexDigit(m)
    ensures n == m
  {
  }

  lemma ToHexHead(a: Bytes)
    requires a != []
    ensures ToHex(a)[0] == HexDigit(a[0] / 16) && ToHex(a)[1] == HexDigit(a[0] % 16)
    ensures ToHex(a)[2..] == ToHex(a[1..])
  {
  }

  lemma DigitTable(n: nat)
    requires n < 16
    ensures HexDigit(n) as int == if n < 10 then '0' as int + n else 'a' as int + (n - 10)
  {
  }

  /** Each byte is written by two digits, the high one first. */
  lemma {:induction false} ToHexDigits(a: Bytes, i: nat)
    requires i < |a|
    ensures ToHex(a)[2 * i] == HexDigit(a[i] / 16) && ToHex(a)[2 * i + 1] == HexDigit(a[i] % 16)
  {
    hide ToHex, HexDigit;
    ToHexHead(a);
    if i == 0 {
    } else {
      ToHexDigits(a[1..], i - 1);
      assert ToHex(a)[2 * i] == ToHex(a)[2..][2 * (i - 1)];
      assert ToHex(a)[2 * i + 1] == ToHex(a)[2..][2 * (i - 1) + 1];
    }
  }

  lemma {:induction false} ToHexInjective(a: Bytes, b: Bytes)
    requires ToHex(a) == ToHex(b)
    ensures a == b
  {
    hide ToHex, HexDigit;
    assert |a| == |b|;
    if a == [] {
    } else {
      ToHexHead(a);
      ToHexHead(b);
      HexDigitInjective(a[0] / 16, b[0] / 16);
      HexDigitInjective(a[0] % 16, b[0] % 16);
      ToHexInjective(a[1..], b[1..]);
      assert a == [a[0]] + a[1..] && b == [b[0]] + b[1..];
    }
  }

  /** The digit that writes `n`, up to case. */
  function DigitValue(c: char): (n: nat)
    requires IsHexDigit(c)
    ensures n < 16 && HexDigit(n) == FoldCase(c)
  {
    if c <= '9' then c as int - '0' as int
    else if c <= 'F' then c as int - 'A' as int + 10
    else c as int - 'a' as int + 10
  }

  function ByteOf(high: char, low: char): (b: Byte)
    requires IsHexDigit(high) && IsHexDigit(low)
    ensures HexDigit(b / 16) == FoldCase(high) && HexDigit(b % 16) == FoldCase(low)
  {
    var h, l := DigitValue(high), DigitValue(low);
    assert (16 * h + l) / 16 == h && (16 * h + l) % 16 == l;
    16 * h + l
  }

  /** Every valid digest is, up to case, the hex text of 32 bytes. */
  lemma FromHex(s: string) returns (bytes: Bytes)
    requires ValidSha256Hex(s)
    ensures |bytes| == 32 && EqualFold(s, ToHex(bytes))
  {
    hide ToHex, FoldCase, HexDigit, IsHexDigit, ByteOf;
    bytes := seq(32, i requires 0 <= i < 32 => ByteOf(s[2 * i], s[2 * i + 1]));
    var hex := ToHex(bytes);
    forall i | 0 <= i < 64 ensures FoldCase(s[i]) == FoldCase(hex[i]) {
      var k := i / 2;
      ToHexDigits(bytes, k);
      FoldTwice(s[2 * k]);
      FoldTwice(s[2 * k + 1]);
      assert i == 2 * k || i == 2 * k + 1;
    }
  }

  lemma FoldTwice(c: char)
    ensures FoldCase(FoldCase(c)) == FoldCase(c)
  {
  }

  /** A text is a valid digest exactly if, up to case, it is the digest of some 32 bytes. */
  lemma ValidExactlyWhen(value: string)
    ensures ValidSha256Hex(value) <==> exists bytes: Bytes :: |bytes| == 32 && EqualFold(value, ToHex(bytes))
  {
    if ValidSha256Hex(value) {
      var bytes := FromHex(value);
    }
    if bytes: Bytes :| |bytes| == 32 && EqualFold(value, ToHex(bytes)) {
      forall i | 0 <= i < |value| ensures IsHexDigit(value[i]) {
        assert FoldCase(value[i]) == FoldCase(ToHex(bytes)[i]);
      }
    }
  }

  /** Comparing digests without regard to case compares the hashed bytes. */
  lemma EqualFoldOfDigests(a: Bytes, b: Bytes)
    ensures EqualFold(ToHex(a), ToHex(b)) <==> a == b
  {
    if EqualFold(ToHex(a), ToHex(b)) {
      assert ToHex(a) == ToHex(b);
      ToHexInjective(a, b);
    }
  }
}
