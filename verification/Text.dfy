/** The string operations the parsers are built from: trimming, splitting and
    decimal numbers, with the laws that let a parser undo a printer. */
module Text {
  import opened Common

  // ---------------------------------------------------------------- blanks

  /** Unicode `White_Space`, which `str::trim` and `split_whitespace` use. */
  predicate IsWhitespace(c: char) {
    || '\t' <= c <= '\r' || c == ' ' || c == '\U{85}' || c == '\U{A0}' || c == '\U{1680}'
    || '\U{2000}' <= c <= '\U{200A}' || c == '\U{2028}' || c == '\U{2029}' || c == '\U{202F}'
    || c == '\U{205F}' || c == '\U{3000}'
  }

  function TrimStartBy(s: string, p: char -> bool): string {
    if s != [] && p(s[0]) then TrimStartBy(s[1..], p) else s
  }

  function TrimEndBy(s: string, p: char -> bool): string {
    if s != [] && p(s[|s| - 1]) then TrimEndBy(s[..|s| - 1], p) else s
  }

  function TrimBy(s: string, p: char -> bool): string {
    TrimEndBy(TrimStartBy(s, p), p)
  }

  function Trim(s: string): string {
    TrimBy(s, IsWhitespace)
  }

  function TakeWord(s: string): (w: string)
    ensures |w| <= |s| && w == s[..|w|]
    ensures s != [] && !IsWhitespace(s[0]) ==> w != []
  {
    if s == [] || IsWhitespace(s[0]) then [] else [s[0]] + TakeWord(s[1..])
  }

  /** `split_whitespace`: the maximal runs of non-blank characters. */
  function Words(s: string): seq<string>
    decreases |s|
  {
    if s == [] then []
    else if IsWhitespace(s[0]) then Words(s[1..])
    else var w := TakeWord(s); [w] + Words(s[|w|..])
  }

  /** `split(sep)`: always at least one piece. */
  function Split(s: string, sep: char): (pieces: seq<string>)
    ensures |pieces| >= 1
  {
    if s == [] then [[]]
    else
      var rest := Split(s[1..], sep);
      if s[0] == sep then [[]] + rest else [[s[0]] + rest[0]] + rest[1..]
  }

  // ---------------------------------------------------------------- letter case

  function AsciiLower(c: char): char {
    if 'A' <= c <= 'Z' then (c as int + 32) as char else c
  }

  predicate EqIgnoreCase(a: string, b: string) {
    |a| == |b| && forall i :: 0 <= i < |a| ==> AsciiLower(a[i]) == AsciiLower(b[i])
  }

  function AsciiUpper(c: char): char {
    if 'a' <= c <= 'z' then (c as int - 32) as char else c
  }

  function Upper(s: string): string {
    seq(|s|, i requires 0 <= i < |s| => AsciiUpper(s[i]))
  }

  const CAPITALS := "ABCDEFGHIJKLMNOPQRSTUVWXYZ"
  const SMALLS := "abcdefghijklmnopqrstuvwxyz"

  /** Folding exchanges the 26 pairs of letters. */
  lemma CaseFolding(i: nat)
    requires i < 26
    ensures AsciiLower(CAPITALS[i]) == SMALLS[i] && AsciiUpper(SMALLS[i]) == CAPITALS[i]
  {
    assert forall i :: 0 <= i < 26 ==> CAPITALS[i] as int == 65 + i;
    assert forall i :: 0 <= i < 26 ==> SMALLS[i] as int == 97 + i;
  }

  /** And it leaves every other character alone. */
  lemma NoLetterFolds(c: char)
    ensures c !in CAPITALS ==> AsciiLower(c) == c
    ensures c !in SMALLS ==> AsciiUpper(c) == c
  {
    if 'A' <= c <= 'Z' {
      assert forall i :: 0 <= i < 26 ==> CAPITALS[i] as int == 65 + i;
      assert CAPITALS[c as int - 65] == c;
    }
    if 'a' <= c <= 'z' {
      assert forall i :: 0 <= i < 26 ==> SMALLS[i] as int == 97 + i;
      assert SMALLS[c as int - 97] == c;
    }
  }

  // ---------------------------------------------------------------- numbers

  predicate IsDigit(c: char) {
    '0' <= c <= '9'
  }

  predicate AllDigits(s: string) {
    forall i :: 0 <= i < |s| ==> IsDigit(s[i])
  }

  function DigitValue(c: char): nat
    requires IsDigit(c)
  {
    c as int - '0' as int
  }

  function DigitChar(d: nat): (c: char)
    requires d < 10
    ensures IsDigit(c) && DigitValue(c) == d
  {
    (d + '0' as int) as char
  }

  function NumberValue(s: string): nat
    requires AllDigits(s)
  {
    if s == [] then 0 else 10 * NumberValue(s[..|s| - 1]) + DigitValue(s[|s| - 1])
  }

  function Decimal(n: nat): (s: string)
    ensures s != [] && AllDigits(s)
  {
    if n < 10 then [DigitChar(n)] else Decimal(n / 10) + [DigitChar(n % 10)]
  }

  function Zeros(n: nat): (s: string)
    ensures |s| == n && AllDigits(s)
  {
    seq(n, _ => '0')
  }

  /** Decimal digits, zero-filled on the left to `width`. */
  function Padded(n: nat, width: nat): (s: string)
    ensures |s| >= width && s != [] && AllDigits(s)
  {
    var d := Decimal(n);
    if |d| < width then Zeros(width - |d|) + d else d
  }

  /** Rust's sign-aware zero fill: the sign counts toward the width. */
  function PaddedInt(n: int, width: nat): string {
    if n >= 0 then Padded(n, width)
    else "-" + Padded(-n, if width == 0 then 0 else width - 1)
  }

  /** `str::parse` for an unsigned type with the given maximum. */
  function ParseUnsigned(s: string, max: nat): Option<nat> {
    var digits := if s != [] && s[0] == '+' then s[1..] else s;
    if digits == [] || !AllDigits(digits) || NumberValue(digits) > max then None
    else Some(NumberValue(digits))
  }

  /** `str::parse` for a signed type with the given range. */
  function ParseSigned(s: string, min: int, max: int): Option<int> {
    var negative := s != [] && s[0] == '-';
    var digits := if s != [] && s[0] in {'+', '-'} then s[1..] else s;
    if digits == [] || !AllDigits(digits) then None
    else
      var n: int := NumberValue(digits);
      var v := if negative then -n else n;
      if min <= v <= max then Some(v) else None
  }

  const U32_MAX := 0xFFFF_FFFF
  const I64_MIN := -0x8000_0000_0000_0000
  const I64_MAX := 0x7FFF_FFFF_FFFF_FFFF

  // ---------------------------------------------------------------- laws

  lemma TrimNothing(s: string, p: char -> bool)
    requires s != [] && !p(s[0]) && !p(s[|s| - 1])
    ensures TrimBy(s, p) == s
  {}

  lemma {:induction false} SplitAt(a: string, sep: char, b: string)
    requires sep !in a
    ensures Split(a + [sep] + b, sep) == [a] + Split(b, sep)
  {
    var s := a + [sep] + b;
    if a == [] {
      assert s[1..] == b;
    } else {
      assert s[1..] == a[1..] + [sep] + b;
      SplitAt(a[1..], sep, b);
      assert a == [a[0]] + a[1..];
    }
  }

  lemma {:induction false} SplitNone(a: string, sep: char)
    requires sep !in a
    ensures Split(a, sep) == [a]
  {
    if a != [] {
      SplitNone(a[1..], sep);
      assert a == [a[0]] + a[1..];
    }
  }

  predicate IsWord(w: string) {
    w != [] && forall i :: 0 <= i < |w| ==> !IsWhitespace(w[i])
  }

  lemma {:induction false} TakeWordStops(w: string, rest: string)
    requires forall i :: 0 <= i < |w| ==> !IsWhitespace(w[i])
    requires rest == [] || IsWhitespace(rest[0])
    ensures TakeWord(w + rest) == w
  {
    if w != [] {
      assert (w + rest)[1..] == w[1..] + rest;
      TakeWordStops(w[1..], rest);
    } else {
      assert w + rest == rest;
    }
  }

  lemma WordsCons(w: string, rest: string)
    requires IsWord(w)
    ensures Words(w + " " + rest) == [w] + Words(rest)
  {
    var s := w + " " + rest;
    assert s == w + (" " + rest);
    TakeWordStops(w, " " + rest);
    assert s[|w|..] == " " + rest;
    assert (" " + rest)[1..] == rest;
  }

  lemma WordsLast(w: string)
    requires IsWord(w)
    ensures Words(w) == [w]
  {
    assert w + [] == w;
    TakeWordStops(w, []);
  }

  lemma {:induction false} DecimalValue(n: nat)
    ensures NumberValue(Decimal(n)) == n
  {
    if n >= 10 {
      DecimalValue(n / 10);
      assert Decimal(n)[..|Decimal(n)| - 1] == Decimal(n / 10);
    }
  }

  lemma {:induction false} LeadingZeros(k: nat, s: string)
    requires AllDigits(s)
    ensures NumberValue(Zeros(k) + s) == NumberValue(s)
  {
    if s != [] {
      assert (Zeros(k) + s)[..k + |s| - 1] == Zeros(k) + s[..|s| - 1];
      LeadingZeros(k, s[..|s| - 1]);
    } else {
      assert Zeros(k) + s == Zeros(k);
      ZeroValue(k);
    }
  }

  lemma {:induction false} ZeroValue(k: nat)
    ensures NumberValue(Zeros(k)) == 0
  {
    if k > 0 {
      assert Zeros(k)[..k - 1] == Zeros(k - 1);
      ZeroValue(k - 1);
    }
  }

  /** Zero-filled printing is undone by reading the digits. */
  lemma PaddedValue(n: nat, width: nat)
    ensures NumberValue(Padded(n, width)) == n
  {
    DecimalValue(n);
    if |Decimal(n)| < width {
      LeadingZeros(width - |Decimal(n)|, Decimal(n));
    }
  }

  lemma {:induction false} DecimalWidth(n: nat, width: nat, bound: nat)
    requires 1 <= width && n < bound
    requires bound == Pow10(width)
    ensures |Decimal(n)| <= width
  {
    if n >= 10 {
      DecimalWidth(n / 10, width - 1, Pow10(width - 1));
    }
  }

  function Pow10(k: nat): (p: nat)
    ensures p >= 1
  {
    if k == 0 then 1 else 10 * Pow10(k - 1)
  }

  /** A number below 10^width takes exactly `width` characters. */
  lemma PaddedWidth(n: nat, width: nat)
    requires 1 <= width && n < Pow10(width)
    ensures |Padded(n, width)| == width
  {
    DecimalWidth(n, width, Pow10(width));
  }

  lemma ParsePadded(n: nat, width: nat)
    ensures ParseUnsigned(Padded(n, width), U32_MAX) == if n <= U32_MAX then Some(n) else None
    ensures ParseSigned(Padded(n, width), I64_MIN, I64_MAX) == if n <= I64_MAX then Some(n) else None
  {
    PaddedValue(n, width);
    assert IsDigit(Padded(n, width)[0]);
  }
}
