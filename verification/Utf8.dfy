/** UTF-8, as `str.encode()` produces it (section 3 of RFC 3629). */
module Utf8 {
  type byte = b: int | 0 <= b < 256

  type Bytes = seq<byte>

  /** SHA-256, as the hexadecimal digits of its digest. */
  type Sha = Bytes -> string

  function EncodeChar(c: char): (r: Bytes)
    ensures 1 <= |r| <= 4
  {
    var n := c as int;
    if n < 0x80 then [n]
    else if n < 0x800 then [0xC0 + n / 0x40, 0x80 + n % 0x40]
    else if n < 0x10000 then [0xE0 + n / 0x1000, 0x80 + n / 0x40 % 0x40, 0x80 + n % 0x40]
    else [0xF0 + n / 0x40000, 0x80 + n / 0x1000 % 0x40, 0x80 + n / 0x40 % 0x40, 0x80 + n % 0x40]
  }

  function Encode(s: string): Bytes {
    if s == "" then [] else EncodeChar(s[0]) + Encode(s[1..])
  }

  lemma {:induction false} EncodeConcat(a: string, b: string)
    ensures Encode(a + b) == Encode(a) + Encode(b)
  {
    if a == "" {
      assert a + b == b;
    } else {
      assert (a + b)[1..] == a[1..] + b;
      EncodeConcat(a[1..], b);
    }
  }

  /** The length of a character's encoding shows in its first byte. */
  function LengthFrom(first: byte): nat {
    if first < 0x80 then 1 else if first < 0xE0 then 2 else if first < 0xF0 then 3 else 4
  }

  lemma FirstByteTells(c: char)
    ensures LengthFrom(EncodeChar(c)[0]) == |EncodeChar(c)|
  {
  }

  /** The code point the bytes of one character stand for. */
  function CodePoint(e: Bytes): int
    requires 1 <= |e| <= 4
  {
    var first: int := e[0];
    if |e| == 1 then first
    else if |e| == 2 then 0x40 * first + Low(e[1]) - 0x40 * 0xC0
    else if |e| == 3 then 0x1000 * first + 0x40 * Low(e[1]) + Low(e[2]) - 0x1000 * 0xE0
    else 0x40000 * first + 0x1000 * Low(e[1]) + 0x40 * Low(e[2]) + Low(e[3]) - 0x40000 * 0xF0
  }

  function Low(b: byte): int {
    var n: int := b;
    n - 0x80
  }

  lemma SixBitGroups(n: nat)
    ensures n == n / 0x40 * 0x40 + n % 0x40
    ensures n / 0x40 == n / 0x1000 * 0x40 + n / 0x40 % 0x40
    ensures n / 0x1000 == n / 0x40000 * 0x40 + n / 0x1000 % 0x40
  {
    assert n / 0x40 / 0x40 == n / 0x1000;
    assert n / 0x1000 / 0x40 == n / 0x40000;
  }

  lemma CodePointOfEncoding(c: char)
    ensures CodePoint(EncodeChar(c)) == c as int
  {
    SixBitGroups(c as int);
  }

  /** Different characters are encoded differently. */
  lemma CharInjective(c: char, d: char)
    requires EncodeChar(c) == EncodeChar(d)
    ensures c == d
  {
    CodePointOfEncoding(c);
    CodePointOfEncoding(d);
  }

  /** Different strings are encoded differently. */
  lemma {:induction false} EncodeInjective(a: string, b: string)
    requires Encode(a) == Encode(b)
    ensures a == b
  {
    if a == "" || b == "" {
      assert |Encode(a)| == 0 || |Encode(b)| == 0;
    } else {
      var e, f := EncodeChar(a[0]), EncodeChar(b[0]);
      FirstByteTells(a[0]);
      FirstByteTells(b[0]);
      assert Encode(a)[0] == e[0] && Encode(b)[0] == f[0];
      assert e == Encode(a)[..|e|] && f == Encode(b)[..|f|];
      CharInjective(a[0], b[0]);
      assert Encode(a)[|e|..] == Encode(a[1..]) && Encode(b)[|f|..] == Encode(b[1..]);
      EncodeInjective(a[1..], b[1..]);
      assert a == [a[0]] + a[1..] && b == [b[0]] + b[1..];
    }
  }

  /** One character of each length, byte for byte (section 3 of RFC 3629). */
  lemma ExampleBytes()
    ensures Encode("A") == [0x41] && Encode("\U{E9}") == [0xC3, 0xA9]
    ensures Encode("\U{20AC}") == [0xE2, 0x82, 0xAC] && Encode("\U{1F600}") == [0xF0, 0x9F, 0x98, 0x80]
  {
    assert "A"[1..] == "" && "\U{E9}"[1..] == "" && "\U{20AC}"[1..] == "" && "\U{1F600}"[1..] == "";
  }
}
