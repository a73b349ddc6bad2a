/** Bytes, `int.to_bytes(width, "big")` and `str.encode("utf-8")`. */
module Bytes {
  import opened Sorting

  type Byte = b: int | 0 <= b < 256

  type Bytes = seq<Byte>

  // ----- Big-endian numbers -----

  function Pow256(width: nat): (r: nat)
    ensures r > 0
  {
    if width == 0 then 1 else 256 * Pow256(width - 1)
  }

  /** Raises OverflowError in the source unless n < 256^width. */
  function BigEndian(n: nat, width: nat): (bytes: Bytes)
    ensures |bytes| == width
  {
    if width == 0 then [] else BigEndian(n / 256, width - 1) + [n % 256]
  }

  function ValueOf(bytes: Bytes): nat {
    if bytes == [] then 0 else 256 * ValueOf(bytes[..|bytes| - 1]) + bytes[|bytes| - 1]
  }

  lemma {:induction false} ValueOfBigEndian(n: nat, width: nat)
    requires n < Pow256(width)
    ensures ValueOf(BigEndian(n, width)) == n
  {
    if width == 0 {
    } else {
      ValueOfBigEndian(n / 256, width - 1);
      var bytes := BigEndian(n, width);
      assert bytes[..width - 1] == BigEndian(n / 256, width - 1);
    }
  }

  lemma {:induction false} BigEndianOfValue(bytes: Bytes)
    ensures ValueOf(bytes) < Pow256(|bytes|)
    ensures BigEndian(ValueOf(bytes), |bytes|) == bytes
  {
    if bytes == [] {
    } else {
      var init := bytes[..|bytes| - 1];
      BigEndianOfValue(init);
      assert ValueOf(bytes) / 256 == ValueOf(init) && ValueOf(bytes) % 256 == bytes[|bytes| - 1];
    }
  }

  /** The high part of a number is written first, and a single byte as itself. */
  lemma {:induction false} HighBytesFirst(high: nat, low: nat, width: nat, lowWidth: nat)
    requires low < Pow256(lowWidth)
    ensures BigEndian(high * Pow256(lowWidth) + low, width + lowWidth) ==
            BigEndian(high, width) + BigEndian(low, lowWidth)
    ensures high < 256 ==> BigEndian(high, 1) == [high]
  {
    if lowWidth == 0 {
    } else {
      var x := high * Pow256(lowWidth - 1);
      assert high * Pow256(lowWidth) == 256 * x;
      assert (256 * x + low) / 256 == x + low / 256 && (256 * x + low) % 256 == low % 256;
      HighBytesFirst(high, low / 256, width, lowWidth - 1);
      assert BigEndian(256 * x + low, width + lowWidth) ==
             BigEndian(x + low / 256, width + lowWidth - 1) + [low % 256];
    }
  }

  // ----- UTF-8 -----

  /** The encoding of one code point. */
  function Utf8Char(c: char): (bytes: Bytes)
    ensures 1 <= |bytes| <= 4
  {
    var n := c as int;
    if n < 0x80 then [n]
    else if n < 0x800 then [0xC0 + n / 0x40, 0x80 + n % 0x40]
    else if n < 0x1_0000 then [0xE0 + n / 0x1000, 0x80 + n / 0x40 % 0x40, 0x80 + n % 0x40]
    else [0xF0 + n / 0x4_0000, 0x80 + n / 0x1000 % 0x40, 0x80 + n / 0x40 % 0x40, 0x80 + n % 0x40]
  }

  function Utf8(s: string): Bytes {
    if s == [] then [] else Utf8Char(s[0]) + Utf8(s[1..])
  }

  lemma Utf8Head(s: string)
    ensures Utf8([]) == []
    ensures s != [] ==> Utf8(s) == Utf8Char(s[0]) + Utf8(s[1..])
  {
    hide Utf8Char;
  }

  /** Characters are encoded one after the other. */
  lemma {:induction false} Utf8Concat(s: string, t: string)
    ensures Utf8(s + t) == Utf8(s) + Utf8(t)
    ensures |s| == 1 ==> Utf8(s) == Utf8Char(s[0])
  {
    hide Utf8, Utf8Char;
    Utf8Head(s);
    if s == [] {
      assert s + t == t;
    } else {
      Utf8Concat(s[1..], t);
      Utf8Head(s + t);
      assert (s + t)[1..] == s[1..] + t;
    }
  }

  /** No encoding of a code point is the beginning of another one. */
  lemma Utf8CharPrefix(c: char, d: char, x: Bytes, y: Bytes)
    requires Utf8Char(c) + x == Utf8Char(d) + y
    ensures c == d && x == y
  {
    var e, f := Utf8Char(c), Utf8Char(d);
    assert (e + x)[0] == e[0] && (f + y)[0] == f[0];
    assert |e| == |f|;
    assert e == (e + x)[..|e|] == f;
    assert x == (e + x)[|e|..] == y;
    CodePointOfUtf8(c);
    CodePointOfUtf8(d);
  }

  /** The payload bits of one byte of an encoding, below its marker bits. */
  function Payload(b: Byte, marker: int): int { b as int - marker }

  /** The number written by the payload bits of an encoding. */
  function CodePoint(e: Bytes): int
    requires 1 <= |e| <= 4
  {
    if |e| == 1 then e[0]
    else if |e| == 2 then Payload(e[0], 0xC0) * 0x40 + Payload(e[1], 0x80)
    else if |e| == 3 then (Payload(e[0], 0xE0) * 0x40 + Payload(e[1], 0x80)) * 0x40 + Payload(e[2], 0x80)
    else ((Payload(e[0], 0xF0) * 0x40 + Payload(e[1], 0x80)) * 0x40 + Payload(e[2], 0x80)) * 0x40 + Payload(e[3], 0x80)
  }

  lemma CodePointOfUtf8(c: char)
    ensures CodePoint(Utf8Char(c)) == c as int
  {
    var n := c as int;
    SplitBase64(n);
    SplitBase64(n / 0x40);
    SplitBase64(n / 0x1000);
    assert n / 0x40 / 0x40 == n / 0x1000 && n / 0x1000 / 0x40 == n / 0x4_0000;
  }

  /** The table of section 3 of RFC 3629: how many bytes, which markers, and that the payload
      bits spell the code point. */
  lemma Utf8Table(c: char)
    ensures var n, e := c as int, Utf8Char(c);
      && (n < 0x80 ==> |e| == 1 && n == e[0])
      && (0x80 <= n < 0x800 ==>
            && |e| == 2 && 0xC0 <= e[0] < 0xE0 && 0x80 <= e[1] < 0xC0
            && n == (e[0] as int - 0xC0) * 0x40 + (e[1] as int - 0x80))
      && (0x800 <= n < 0x1_0000 ==>
            && |e| == 3 && 0xE0 <= e[0] < 0xF0 && 0x80 <= e[1] < 0xC0 && 0x80 <= e[2] < 0xC0
            && n == ((e[0] as int - 0xE0) * 0x40 + (e[1] as int - 0x80)) * 0x40 + (e[2] as int - 0x80))
      && (0x1_0000 <= n ==>
            && |e| == 4 && 0xF0 <= e[0] < 0xF8
            && 0x80 <= e[1] < 0xC0 && 0x80 <= e[2] < 0xC0 && 0x80 <= e[3] < 0xC0
            && n == (((e[0] as int - 0xF0) * 0x40 + (e[1] as int - 0x80)) * 0x40 + (e[2] as int - 0x80)) * 0x40
                    + (e[3] as int - 0x80))
  {
    CodePointOfUtf8(c);
  }

  lemma SplitBase64(n: nat)
    ensures n == n / 0x40 * 0x40 + n % 0x40
  {
  }

  /** Different texts have different encodings. */
  lemma {:induction false} Utf8Injective(s: string, t: string)
    requires Utf8(s) == Utf8(t)
    ensures s == t
  {
    if s == [] || t == [] {
    } else {
      Utf8CharPrefix(s[0], t[0], Utf8(s[1..]), Utf8(t[1..]));
      Utf8Injective(s[1..], t[1..]);
      assert s == [s[0]] + s[1..] && t == [t[0]] + t[1..];
    }
  }

  /** Only the NUL character encodes to a zero byte. */
  lemma {:induction false} Utf8NulFree(s: string)
    ensures 0 in Utf8(s) <==> '\0' in s
  {
    if s == [] {
    } else {
      Utf8NulFree(s[1..]);
      assert 0 in Utf8Char(s[0]) <==> s[0] == '\0';
      assert s == [s[0]] + s[1..];
    }
  }

  // ----- Text order -----

  /** The order in which Python compares strings: by code points, a prefix first. */
  predicate TextLe(s: string, t: string) {
    s == [] || (t != [] && (s[0] < t[0] || (s[0] == t[0] && TextLe(s[1..], t[1..]))))
  }

  /** A prefix comes first, otherwise the smaller character at the first difference. */
  lemma {:induction false} TextLeMeaning(s: string, t: string)
    ensures TextLe(s, t) <==>
            s <= t || exists k :: 0 <= k < |s| && k < |t| && s[..k] == t[..k] && s[k] < t[k]
  {
    if s == [] || t == [] {
    } else {
      TextLeMeaning(s[1..], t[1..]);
      var found := exists k :: 0 <= k < |s| && k < |t| && s[..k] == t[..k] && s[k] < t[k];
      if s[0] < t[0] {
        assert s[..0] == t[..0];
        assert found;
      } else if s[0] == t[0] {
        FirstDifference(s, t);
        assert s == [s[0]] + s[1..] && t == [t[0]] + t[1..];
        assert s <= t <==> s[1..] <= t[1..];
      } else {
        forall k | 0 < k < |s| && k < |t| ensures s[..k] != t[..k] {
          assert s[..k][0] != t[..k][0];
        }
      }
    }
  }

  lemma FirstDifference(s: string, t: string)
    requires s != [] && t != [] && s[0] == t[0]
    ensures (exists k :: 0 <= k < |s| && k < |t| && s[..k] == t[..k] && s[k] < t[k]) <==>
            exists k :: 0 <= k < |s[1..]| && k < |t[1..]| && s[1..][..k] == t[1..][..k] && s[1..][k] < t[1..][k]
  {
    if k :| 0 <= k < |s| && k < |t| && s[..k] == t[..k] && s[k] < t[k] {
      assert s[1..][..k - 1] == s[..k][1..] == t[..k][1..] == t[1..][..k - 1];
      assert s[1..][k - 1] < t[1..][k - 1];
    }
    if k :| 0 <= k < |s[1..]| && k < |t[1..]| && s[1..][..k] == t[1..][..k] && s[1..][k] < t[1..][k] {
      assert s[..k + 1] == [s[0]] + s[1..][..k] == t[..k + 1];
      assert s[k + 1] < t[k + 1];
    }
  }

  lemma {:induction false} TextLeTotal(s: string, t: string)
    ensures TextLe(s, t) || TextLe(t, s)
  {
    if s == [] || t == [] {
    } else {
      TextLeTotal(s[1..], t[1..]);
    }
  }

  lemma {:induction false} TextLeAntisymmetric(s: string, t: string)
    requires TextLe(s, t) && TextLe(t, s)
    ensures s == t
  {
    if s == [] || t == [] {
    } else {
      TextLeAntisymmetric(s[1..], t[1..]);
      assert s == [s[0]] + s[1..] && t == [t[0]] + t[1..];
    }
  }

  lemma {:induction false} TextLeTransitive(s: string, t: string, u: string)
    requires TextLe(s, t) && TextLe(t, u)
    ensures TextLe(s, u)
  {
    if s == [] {
    } else if s[0] == t[0] == u[0] {
      TextLeTransitive(s[1..], t[1..], u[1..]);
    }
  }

  /** A total order. */
  lemma TextOrder()
    ensures Total(TextLe) && Transitive(TextLe) && Antisymmetric(TextLe)
  {
    forall s, t
      ensures TextLe(s, t) || TextLe(t, s)
      ensures TextLe(s, t) && TextLe(t, s) ==> s == t
    {
      TextLeTotal(s, t);
      if TextLe(s, t) && TextLe(t, s) { TextLeAntisymmetric(s, t); }
    }
    forall s, t, u | TextLe(s, t) && TextLe(t, u)
      ensures TextLe(s, u)
    {
      TextLeTransitive(s, t, u);
    }
  }
}
