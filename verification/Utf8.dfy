/** The UTF-8 bytes of a Rust string. */
module Utf8 {
  import opened Common

  function EncodeChar(c: char): (b: seq<byte>)
    ensures 1 <= |b| <= 4
    ensures c < '\U{80}' ==> b == [c as int as byte]
  {
    var n := c as int;
    if n < 0x80 then [n as byte]
    else if n < 0x800 then [(0xC0 + n / 0x40) as byte, (0x80 + n % 0x40) as byte]
    else if n < 0x10000 then
      [(0xE0 + n / 0x1000) as byte, (0x80 + n / 0x40 % 0x40) as byte, (0x80 + n % 0x40) as byte]
    else
      [(0xF0 + n / 0x40000) as byte, (0x80 + n / 0x1000 % 0x40) as byte,
       (0x80 + n / 0x40 % 0x40) as byte, (0x80 + n % 0x40) as byte]
  }

  function Encode(s: string): seq<byte> {
    if s == [] then [] else EncodeChar(s[0]) + Encode(s[1..])
  }

  lemma {:induction false} EncodeConcat(a: string, b: string)
    ensures Encode(a + b) == Encode(a) + Encode(b)
  {
    if a == [] {
      assert a + b == b;
    } else {
      assert (a + b)[1..] == a[1..] + b;
      EncodeConcat(a[1..], b);
    }
  }

  predicate IsAscii(s: string) {
    forall i :: 0 <= i < |s| ==> s[i] < '\U{80}'
  }

  /** ASCII text is its own bytes. */
  lemma {:induction false} EncodeAscii(s: string)
    requires IsAscii(s)
    ensures |Encode(s)| == |s|
    ensures forall i :: 0 <= i < |s| ==> Encode(s)[i] == s[i] as int as byte
  {
    if s != [] {
      assert IsAscii(s[1..]);
      EncodeAscii(s[1..]);
    }
  }

  /** Only ASCII text has ASCII bytes. */
  lemma {:induction false} EncodeIsAscii(s: string, t: string)
    requires IsAscii(t) && Encode(s) == Encode(t)
    ensures s == t
  {
    if t == [] {
      assert s == [];
    } else {
      EncodeAscii(t);
      assert s != [];
      assert Encode(s)[0] == EncodeChar(s[0])[0];
      assert s[0] == t[0];
      assert Encode(s)[1..] == Encode(s[1..]) && Encode(t)[1..] == Encode(t[1..]);
      assert IsAscii(t[1..]);
      EncodeIsAscii(s[1..], t[1..]);
      assert s == [s[0]] + s[1..];
    }
  }

  /** The first byte tells the length of a character, and the bytes the character. */
  lemma EncodeCharReads(c: char, d: char, x: seq<byte>, y: seq<byte>)
    requires EncodeChar(c) + x == EncodeChar(d) + y
    ensures c == d && x == y
  {
    var b, e := EncodeChar(c), EncodeChar(d);
    var s := b + x;
    assert s[0] == b[0] == e[0];
    assert |b| == |e|;
    assert b == s[..|b|] == e && x == s[|b|..] == y;
    SameChar(c, d);
  }

  /** The code point of a character's bytes. */
  function CodePoint(b: seq<byte>): int
    requires 1 <= |b| <= 4
  {
    if |b| == 1 then b[0] as int
    else if |b| == 2 then (b[0] as int - 0xC0) * 0x40 + (b[1] as int - 0x80)
    else if |b| == 3 then (b[0] as int - 0xE0) * 0x1000 + (b[1] as int - 0x80) * 0x40 + (b[2] as int - 0x80)
    else
      (b[0] as int - 0xF0) * 0x40000 + (b[1] as int - 0x80) * 0x1000 + (b[2] as int - 0x80) * 0x40
      + (b[3] as int - 0x80)
  }

  lemma CodePointOfChar(c: char)
    ensures CodePoint(EncodeChar(c)) == c as int
  {
    var n := c as int;
    assert n == n / 0x40 * 0x40 + n % 0x40;
    assert n / 0x40 == n / 0x1000 * 0x40 + n / 0x40 % 0x40;
    assert n / 0x1000 == n / 0x40000 * 0x40 + n / 0x1000 % 0x40;
  }

  lemma SameChar(c: char, d: char)
    requires EncodeChar(c) == EncodeChar(d)
    ensures c == d
  {
    CodePointOfChar(c);
    CodePointOfChar(d);
    hide *;
  }

  lemma {:induction false} EncodeInjective(s: string, t: string)
    requires Encode(s) == Encode(t)
    ensures s == t
  {
    if s != [] && t != [] {
      EncodeCharReads(s[0], t[0], Encode(s[1..]), Encode(t[1..]));
      EncodeInjective(s[1..], t[1..]);
      assert s == [s[0]] + s[1..] && t == [t[0]] + t[1..];
    }
  }
}
