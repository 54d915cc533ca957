/** The base32 and base64 encodings of RFC 4648, and the encoders that compute them. */
module BaseEncoding {
  import opened Common

  type Bit = b: int | 0 <= b < 2

  // ---------------------------------------------------------------- numbers and bits

  function Pow2(n: nat): (p: nat)
    ensures p > 0
  {
    if n == 0 then 1 else 2 * Pow2(n - 1)
  }

  /** The low `n` bits of a number, most significant first. */
  function ToBits(v: nat, n: nat): (bits: seq<Bit>)
    ensures |bits| == n
  {
    if n == 0 then [] else ToBits(v / 2, n - 1) + [v % 2]
  }

  function Value(bits: seq<Bit>): nat {
    if bits == [] then 0 else 2 * Value(bits[..|bits| - 1]) + bits[|bits| - 1]
  }

  function Zeros(n: nat): (bits: seq<Bit>)
    ensures |bits| == n
  {
    seq(n, i requires 0 <= i < n => 0)
  }

  lemma {:induction false} ValueOfBits(v: nat, n: nat)
    ensures Value(ToBits(v, n)) == v % Pow2(n)
    ensures Value(ToBits(v, n)) < Pow2(n)
  {
    if n > 0 {
      ValueOfBits(v / 2, n - 1);
      HalfMod(v, Pow2(n - 1));
    }
  }

  lemma {:induction false} BitsOfValue(bits: seq<Bit>)
    ensures ToBits(Value(bits), |bits|) == bits && Value(bits) < Pow2(|bits|)
  {
    if bits != [] {
      BitsOfValue(bits[..|bits| - 1]);
    }
  }

  lemma HalfMod(v: nat, p: nat)
    requires p > 0
    ensures v % (2 * p) == 2 * ((v / 2) % p) + v % 2
  {
    var h, d := v / 2, v % 2;
    var q, r := h / p, h % p;
    assert v == (2 * p) * q + (2 * r + d) by {
      assert h == p * q + r;
      assert v == 2 * h + d;
      assert 2 * (p * q) == (2 * p) * q;
    }
    Euclid(v, 2 * p, q, 2 * r + d);
  }

  lemma Euclid(v: nat, m: nat, q: nat, r: nat)
    requires m > 0 && r < m && v == m * q + r
    ensures v / m == q && v % m == r
  {
    var q', r' := v / m, v % m;
    assert v == m * q' + r';
    SameQuotient(m, q, r, q', r');
  }

  lemma SameQuotient(m: nat, q: nat, r: nat, q': nat, r': nat)
    requires r < m && r' < m && m * q + r == m * q' + r'
    ensures q == q' && r == r'
  {
    if q < q' {
      MulStep(m, q, q');
    } else if q' < q {
      MulStep(m, q', q);
    }
  }

  lemma MulStep(m: nat, q: nat, q': nat)
    requires q < q'
    ensures m * q' >= m * q + m
  {
    var d := q' - q - 1;
    assert m * q' == m * q + m + m * d;
  }

  /** A right shift by `n` bits. */
  function Shr(v: nat, n: nat): nat {
    if n == 0 then v else Shr(v / 2, n - 1)
  }

  /** The low `a + b` bits are the `a` bits above the low `b`, then the low `b`. */
  lemma {:induction false} BitsSplit(v: nat, a: nat, b: nat)
    ensures ToBits(v, a + b) == ToBits(Shr(v, b), a) + ToBits(v, b)
    decreases b
  {
    if b > 0 {
      BitsSplit(v / 2, a, b - 1);
    }
  }

  /** Bits above the low `n` do not matter. */
  lemma {:induction false} LowBits(v: nat, w: nat, n: nat)
    requires v % Pow2(n) == w % Pow2(n)
    ensures ToBits(v, n) == ToBits(w, n)
  {
    if n > 0 {
      HalfMod(v, Pow2(n - 1));
      HalfMod(w, Pow2(n - 1));
      LowBits(v / 2, w / 2, n - 1);
    }
  }

  /** A 32-bit register keeps the low 32 bits. */
  lemma {:induction false} Truncated(v: nat, n: nat, width: nat)
    requires n <= width
    ensures ToBits(v % Pow2(width), n) == ToBits(v, n)
  {
    if n > 0 {
      HalfMod(v, Pow2(width - 1));
      var half, low := v / 2 % Pow2(width - 1), v % 2;
      var kept := v % Pow2(width);
      assert kept == 2 * half + low;
      Truncated(v / 2, n - 1, width - 1);
      hide Pow2;
      assert kept / 2 == half && kept % 2 == low;
    }
  }

  /** A left shift by `n` bits. */
  function Shl(v: nat, n: nat): nat {
    if n == 0 then v else 2 * Shl(v, n - 1)
  }

  lemma {:induction false} ShiftedLeft(v: nat, n: nat, c: nat)
    ensures ToBits(Shl(v, c), n + c) == ToBits(v, n) + Zeros(c)
  {
    if c > 0 {
      ShiftedLeft(v, n, c - 1);
      var half := Shl(v, c - 1);
      assert 2 * half / 2 == half && 2 * half % 2 == 0;
      assert Zeros(c) == Zeros(c - 1) + [0];
    }
  }

  lemma ByteAppended(v: nat, low: nat, n: nat)
    requires low < 256
    ensures ToBits(v * 256 + low, n + 8) == ToBits(v, n) + ToBits(low, 8)
  {
    var w := v * 256 + low;
    assert w / 256 == v && w % 256 == low % 256;
    PowersToEight();
    ShiftByEight(w);
    BitsSplit(w, n, 8);
    hide ToBits, Shr;
    LowBits(w, low, 8);
  }

  lemma ShiftByEight(v: nat)
    ensures Shr(v, 8) == v / 256
  {
    ShrFour(v, 4);
    ShrFour(v / 16, 0);
  }

  lemma ShrFour(v: nat, n: nat)
    ensures Shr(v, n + 4) == Shr(v / 16, n)
  {
    assert Shr(v, n + 4) == Shr(v / 2 / 2, n + 2) == Shr(v / 2 / 2 / 2 / 2, n);
  }

  lemma PowersToEight()
    ensures Pow2(5) == 32 && Pow2(6) == 64 && Pow2(8) == 256
  {
    assert Pow2(3) == 8;
    assert Pow2(5) == 4 * Pow2(3);
    assert Pow2(6) == 2 * Pow2(5);
    assert Pow2(8) == 4 * Pow2(6);
  }

  // ---------------------------------------------------------------- RFC 4648

  const UPPER := "ABCDEFGHIJKLMNOPQRSTUVWXYZ"
  const LOWER := "abcdefghijklmnopqrstuvwxyz"
  const DIGITS := "0123456789"
  const ALPHABET32 := UPPER + DIGITS[2..8]
  const ALPHABET64 := UPPER + LOWER + DIGITS + "+/"

  /** All bytes, bit by bit. */
  function BitsOf(bytes: seq<byte>): (bits: seq<Bit>)
    ensures |bits| == 8 * |bytes|
  {
    if bytes == [] then [] else ToBits(bytes[0] as int, 8) + BitsOf(bytes[1..])
  }

  /** Groups of `k` bits from the left, the last one filled up with zero bits. */
  function Groups(bits: seq<Bit>, k: nat): (groups: seq<nat>)
    requires k > 0
    decreases |bits|
  {
    if bits == [] then []
    else if |bits| < k then [Value(bits + Zeros(k - |bits|))]
    else [Value(bits[..k])] + Groups(bits[k..], k)
  }

  /** The letter of a digit. */
  function Letter(alphabet: string, digit: nat): char {
    if digit < |alphabet| then alphabet[digit] else '='
  }

  function Letters(alphabet: string, digits: seq<nat>): (s: string)
    ensures |s| == |digits|
  {
    if digits == [] then [] else [Letter(alphabet, digits[0])] + Letters(alphabet, digits[1..])
  }

  /** Base32 without padding: section 6 of RFC 4648. */
  function Base32(bytes: seq<byte>): string {
    Letters(ALPHABET32, Groups(BitsOf(bytes), 5))
  }

  /** Fills up to a multiple of four characters. */
  function Padded(s: string): string {
    s + if |s| % 4 == 2 then "==" else if |s| % 4 == 3 then "=" else ""
  }

  /** Base64 with padding: section 4 of RFC 4648. */
  function Base64(bytes: seq<byte>): string {
    Padded(Letters(ALPHABET64, Groups(BitsOf(bytes), 6)))
  }

  // ---------------------------------------------------------------- reading an encoding back

  function IndexOf(alphabet: string, c: char): (i: Option<nat>)
    ensures i.Some? ==> i.value < |alphabet|
  {
    if alphabet == [] then None
    else if alphabet[0] == c then Some(0)
    else
      match IndexOf(alphabet[1..], c)
      case None => None
      case Some(i) => Some(i + 1)
  }

  /** The bits of the letters, `k` each; a character outside the alphabet is refused. */
  function BitsOfLetters(alphabet: string, s: string, k: nat): Option<seq<Bit>> {
    if s == [] then Some([])
    else
      match (IndexOf(alphabet, s[0]), BitsOfLetters(alphabet, s[1..], k))
      case (Some(d), Some(bits)) => Some(ToBits(d, k) + bits)
      case _ => None
  }

  /** Whole bytes from the left; fewer than eight bits at the end are filling. */
  function BytesOf(bits: seq<Bit>): seq<byte>
    decreases |bits|
  {
    if |bits| < 8 then []
    else [(Value(bits[..8]) % 256) as byte] + BytesOf(bits[8..])
  }

  function Unpadded(s: string): string {
    if s != [] && s[|s| - 1] == '=' then Unpadded(s[..|s| - 1]) else s
  }

  function Decode(alphabet: string, s: string, k: nat): Option<seq<byte>> {
    match BitsOfLetters(alphabet, Unpadded(s), k)
    case None => None
    case Some(bits) => Some(BytesOf(bits))
  }

  predicate Distinct(alphabet: string) {
    forall i, j :: 0 <= i < j < |alphabet| ==> alphabet[i] != alphabet[j]
  }

  lemma {:induction false} IndexOfLetter(alphabet: string, i: nat)
    requires i < |alphabet| && Distinct(alphabet)
    ensures IndexOf(alphabet, alphabet[i]) == Some(i)
  {
    if i > 0 {
      assert Distinct(alphabet[1..]);
      IndexOfLetter(alphabet[1..], i - 1);
    }
  }

  /** The characters of a run follow each other. */
  predicate Consecutive(run: string, first: char) {
    forall i :: 0 <= i < |run| ==> run[i] as int == first as int + i
  }

  lemma RunsAreConsecutive()
    ensures |UPPER| == 26 && Consecutive(UPPER, 'A')
    ensures |LOWER| == 26 && Consecutive(LOWER, 'a')
    ensures |DIGITS| == 10 && Consecutive(DIGITS, '0')
  {}

  lemma AlphabetsAreDistinct()
    ensures |ALPHABET32| == 32 && Distinct(ALPHABET32) && '=' !in ALPHABET32
    ensures |ALPHABET64| == 64 && Distinct(ALPHABET64) && '=' !in ALPHABET64
  {
    RunsAreConsecutive();
    RunsAreDistinct(UPPER, LOWER, DIGITS);
  }

  lemma RunsAreDistinct(upper: string, lower: string, digits: string)
    requires |upper| == 26 && Consecutive(upper, 'A')
    requires |lower| == 26 && Consecutive(lower, 'a')
    requires |digits| == 10 && Consecutive(digits, '0')
    ensures Distinct(upper + digits[2..8]) && '=' !in upper + digits[2..8]
    ensures Distinct(upper + lower + digits + "+/") && '=' !in upper + lower + digits + "+/"
  {}

  /** The ASCII codes of the base64 letters: capitals, small letters, digits, plus and slash. */
  function Code64(d: nat): nat {
    if d < 26 then 65 + d else if d < 52 then 97 + (d - 26) else if d < 62 then 48 + (d - 52)
    else if d == 62 then 43 else 47
  }

  /** The letters of the digits, as tables 3 and 1 of RFC 4648 give them. */
  lemma LettersOfDigits(d: nat)
    ensures d < 32 ==> Letter(ALPHABET32, d) as int == if d < 26 then 65 + d else 50 + (d - 26)
    ensures d < 64 ==> Letter(ALPHABET64, d) as int == Code64(d)
  {
    RunsAreConsecutive();
    LettersOfRuns(UPPER, LOWER, DIGITS, d);
  }

  lemma LettersOfRuns(upper: string, lower: string, digits: string, d: nat)
    requires |upper| == 26 && Consecutive(upper, 'A')
    requires |lower| == 26 && Consecutive(lower, 'a')
    requires |digits| == 10 && Consecutive(digits, '0')
    ensures d < 32 ==> Letter(upper + digits[2..8], d) as int == if d < 26 then 65 + d else 50 + (d - 26)
    ensures d < 64 ==> Letter(upper + lower + digits + "+/", d) as int == Code64(d)
  {}

  /** The zero bits that fill up the last group. */
  function Filling(n: nat, k: nat): (f: nat)
    requires k > 0
    ensures f < k
  {
    if n == 0 then 0 else if n < k then k - n else Filling(n - k, k)
  }

  lemma {:induction false} LettersReadBack(alphabet: string, bits: seq<Bit>, k: nat)
    requires k > 0 && |alphabet| == Pow2(k) && Distinct(alphabet)
    ensures BitsOfLetters(alphabet, Letters(alphabet, Groups(bits, k)), k) == Some(bits + Zeros(Filling(|bits|, k)))
    ensures forall c <- Letters(alphabet, Groups(bits, k)) :: c in alphabet
    decreases |bits|
  {
    if bits == [] {
      assert bits + Zeros(Filling(|bits|, k)) == [];
    } else {
      var full := |bits| >= k;
      var group := if full then bits[..k] else bits + Zeros(k - |bits|);
      var rest := if full then bits[k..] else [];
      FirstGroup(bits, k);
      BitsOfValue(group);
      IndexOfLetter(alphabet, Value(group));
      LettersReadBack(alphabet, rest, k);
      hide *;
      FirstLetter(alphabet, group, Groups(rest, k), k);
    }
  }

  /** The first group and the rest, with the filling. */
  lemma FirstGroup(bits: seq<Bit>, k: nat)
    requires k > 0 && bits != []
    ensures |bits| >= k ==> Groups(bits, k) == [Value(bits[..k])] + Groups(bits[k..], k)
                            && bits + Zeros(Filling(|bits|, k)) ==
                               bits[..k] + (bits[k..] + Zeros(Filling(|bits| - k, k)))
    ensures |bits| < k ==> Groups(bits, k) == [Value(bits + Zeros(k - |bits|))] + Groups([], k)
                           && bits + Zeros(Filling(|bits|, k)) ==
                              (bits + Zeros(k - |bits|)) + ([] + Zeros(Filling(0, k)))
  {
    hide Value;
  }

  lemma FirstLetter(alphabet: string, group: seq<Bit>, more: seq<nat>, k: nat)
    requires |group| == k && Value(group) < |alphabet|
    requires IndexOf(alphabet, alphabet[Value(group)]) == Some(Value(group)) && ToBits(Value(group), k) == group
    ensures var s := Letters(alphabet, [Value(group)] + more);
            s == [alphabet[Value(group)]] + Letters(alphabet, more)
            && BitsOfLetters(alphabet, s, k) == match BitsOfLetters(alphabet, Letters(alphabet, more), k)
                                                case None => None
                                                case Some(bits) => Some(group + bits)
  {
    var s := Letters(alphabet, [Value(group)] + more);
    assert ([Value(group)] + more)[1..] == more;
    assert s[1..] == Letters(alphabet, more);
  }

  lemma {:induction false} BytesReadBack(bytes: seq<byte>, filling: seq<Bit>)
    requires |filling| < 8
    ensures BytesOf(BitsOf(bytes) + filling) == bytes
  {
    if bytes == [] {
      assert BitsOf(bytes) + filling == filling;
    } else {
      var first := ToBits(bytes[0] as int, 8);
      BytesReadBack(bytes[1..], filling);
      ValueOfBits(bytes[0] as int, 8);
      PowersToEight();
      assert bytes == [bytes[0]] + bytes[1..];
      hide ToBits, Value, Pow2, BytesOf;
      BitAssoc(first, BitsOf(bytes[1..]), filling);
      ByteFirst(first, BitsOf(bytes[1..]) + filling);
    }
  }

  lemma ByteFirst(first: seq<Bit>, more: seq<Bit>)
    requires |first| == 8
    ensures BytesOf(first + more) == [(Value(first) % 256) as byte] + BytesOf(more)
  {
    hide Value;
    assert (first + more)[..8] == first && (first + more)[8..] == more;
  }

  lemma {:induction false} NothingToUnpad(s: string, t: string)
    requires '=' !in s && (forall i :: 0 <= i < |t| ==> t[i] == '=')
    ensures Unpadded(s + t) == s
    decreases |t|
  {
    if t == [] {
      assert s + t == s;
      assert s != [] ==> s[|s| - 1] in s;
    } else {
      assert (s + t)[..|s + t| - 1] == s + t[..|t| - 1];
      NothingToUnpad(s, t[..|t| - 1]);
    }
  }

  /** Both encodings can be undone, for every byte sequence. */
  lemma Base32Inverts(bytes: seq<byte>)
    ensures Decode(ALPHABET32, Base32(bytes), 5) == Some(bytes)
  {
    EncodingInverts(ALPHABET32, bytes, 5, "");
    assert Base32(bytes) + "" == Base32(bytes);
  }

  lemma Base64Inverts(bytes: seq<byte>)
    ensures Decode(ALPHABET64, Base64(bytes), 6) == Some(bytes)
  {
    var letters := Letters(ALPHABET64, Groups(BitsOf(bytes), 6));
    EncodingInverts(ALPHABET64, bytes, 6, Padded(letters)[|letters|..]);
  }

  lemma EncodingInverts(alphabet: string, bytes: seq<byte>, k: nat, padding: string)
    requires (alphabet == ALPHABET32 && k == 5) || (alphabet == ALPHABET64 && k == 6)
    requires forall i :: 0 <= i < |padding| ==> padding[i] == '='
    ensures Decode(alphabet, Letters(alphabet, Groups(BitsOf(bytes), k)) + padding, k) == Some(bytes)
  {
    hide *;
    AlphabetsAreDistinct();
    PowersToEight();
    var bits := BitsOf(bytes);
    var letters := Letters(alphabet, Groups(bits, k));
    LettersReadBack(alphabet, bits, k);
    NothingToUnpad(letters, padding);
    BytesReadBack(bytes, Zeros(Filling(|bits|, k)));
    DecodeOf(alphabet, letters + padding, k, bits + Zeros(Filling(|bits|, k)));
  }

  lemma DecodeOf(alphabet: string, s: string, k: nat, bits: seq<Bit>)
    requires BitsOfLetters(alphabet, Unpadded(s), k) == Some(bits)
    ensures Decode(alphabet, s, k) == Some(BytesOf(bits))
  {}

  // ---------------------------------------------------------------- the base32 encoder

  /** The first group of a stream of bits that starts with bits of a register. */
  lemma OneGroup(v: nat, n: nat, rest: seq<Bit>, k: nat)
    requires k > 0
    ensures Groups(ToBits(v, k + n) + rest, k) == [Shr(v, n) % Pow2(k)] + Groups(ToBits(v, n) + rest, k)
  {
    BitsSplit(v, k, n);
    ValueOfBits(Shr(v, n), k);
    var first, low := ToBits(Shr(v, n), k), ToBits(v, n);
    var bits := ToBits(v, k + n) + rest;
    hide ToBits, Value, Pow2, Shr;
    assert bits[..k] == first && bits[k..] == low + rest;
  }

  /** Taking a byte into the register, whose top bits are lost. */
  lemma RegisterTakesByte(buffer: nat, low: nat, n: nat)
    requires n < 8 && low < 256
    ensures ToBits(TakeByte(buffer, low), n + 8) == ToBits(buffer, n) + ToBits(low, 8)
  {
    hide *;
    PowersTo24();
    Truncated(buffer, n, 24);
    ByteAppended(buffer % 0x100_0000, low, n);
    TopBitsLost(buffer, low);
  }

  lemma TopBitsLost(v: nat, low: nat)
    requires low < 256
    ensures TakeByte(v, low) == v % 0x100_0000 * 256 + low
  {}

  lemma PowersTo24()
    ensures Pow2(24) == 0x100_0000
  {
    PowersToEight();
    assert Pow2(12) == 16 * Pow2(8);
    assert Pow2(16) == 16 * Pow2(12);
    assert Pow2(20) == 16 * Pow2(16);
    assert Pow2(24) == 16 * Pow2(20);
  }

  /** The last group of fewer than `k` bits, shifted up and masked. */
  lemma LastGroup(buffer: nat, n: nat, k: nat)
    requires 0 < n < k
    ensures Groups(ToBits(buffer, n), k) == [Shl(buffer, k - n) % Pow2(k)]
  {
    ShiftedLeft(buffer, n, k - n);
    ValueOfBits(Shl(buffer, k - n), k);
    hide ToBits, Value;
    assert ToBits(buffer, n) != [];
  }

  /** The register shifted left by eight bits, with a byte put in; the top bits are lost. */
  function TakeByte(buffer: nat, low: nat): (r: nat)
    requires low < 256
    ensures r < 0x1_0000_0000
  {
    buffer * 256 % 0x1_0000_0000 + low
  }

  /** A left shift of a 32-bit register. */
  function Shl32(v: nat, n: nat): nat {
    Shl(v, n) % 0x1_0000_0000
  }

  /** What is still to come: `n` bits in the register, then `rest`. */
  ghost predicate Pending(bytes: seq<byte>, out: string, buffer: nat, n: nat, rest: seq<Bit>) {
    Base32(bytes) == out + Letters(ALPHABET32, Groups(ToBits(buffer, n) + rest, 5))
  }

  lemma Base32Starts(bytes: seq<byte>)
    ensures Pending(bytes, "", 0, 0, BitsOf(bytes[0..]))
  {
    assert bytes[0..] == bytes && ToBits(0, 0) + BitsOf(bytes) == BitsOf(bytes);
  }

  lemma ByteTaken(bytes: seq<byte>, i: nat, out: string, buffer: nat, n: nat)
    requires i < |bytes| && n < 8 && Pending(bytes, out, buffer, n, BitsOf(bytes[i..]))
    ensures Pending(bytes, out, TakeByte(buffer, bytes[i] as int), n + 8, BitsOf(bytes[i + 1..]))
  {
    hide *;
    RegisterTakesByte(buffer, bytes[i] as int, n);
    BitsFirst(bytes[i..]);
    assert bytes[i..][1..] == bytes[i + 1..];
    var rest := BitsOf(bytes[i + 1..]);
    BitAssoc(ToBits(buffer, n), ToBits(bytes[i] as int, 8), rest);
    PendingMeans(bytes, out, buffer, n, BitsOf(bytes[i..]));
    PendingIf(bytes, out, TakeByte(buffer, bytes[i] as int), n + 8, rest);
  }

  lemma BitAssoc(a: seq<Bit>, b: seq<Bit>, c: seq<Bit>)
    ensures (a + b) + c == a + (b + c)
  {}

  lemma GroupOut(bytes: seq<byte>, out: string, buffer: nat, n: nat, rest: seq<Bit>)
    requires |ALPHABET32| == 32 && Pending(bytes, out, buffer, n + 5, rest)
    ensures Pending(bytes, out + [ALPHABET32[Shr(buffer, n) % 32]], buffer, n, rest)
  {
    hide *;
    PowersToEight();
    OneGroup(buffer, n, rest, 5);
    PendingMeans(bytes, out, buffer, n + 5, rest);
    assert 5 + n == n + 5;
    LetterOut(ALPHABET32, out, Shr(buffer, n) % 32, Groups(ToBits(buffer, n) + rest, 5));
    PendingIf(bytes, out + [ALPHABET32[Shr(buffer, n) % 32]], buffer, n, rest);
  }

  lemma PendingMeans(bytes: seq<byte>, out: string, buffer: nat, n: nat, rest: seq<Bit>)
    requires Pending(bytes, out, buffer, n, rest)
    ensures Base32(bytes) == out + Letters(ALPHABET32, Groups(ToBits(buffer, n) + rest, 5))
  {}

  lemma PendingIf(bytes: seq<byte>, out: string, buffer: nat, n: nat, rest: seq<Bit>)
    requires Base32(bytes) == out + Letters(ALPHABET32, Groups(ToBits(buffer, n) + rest, 5))
    ensures Pending(bytes, out, buffer, n, rest)
  {}

  lemma LowOf32(v: nat)
    ensures v % 0x1_0000_0000 % 32 == v % 32
  {}

  lemma LastOut(bytes: seq<byte>, out: string, buffer: nat, n: nat)
    requires |ALPHABET32| == 32 && n < 5 && Pending(bytes, out, buffer, n, BitsOf(bytes[|bytes|..]))
    ensures n == 0 ==> Base32(bytes) == out
    ensures n > 0 ==> Base32(bytes) == out + [ALPHABET32[Shl32(buffer, 5 - n) % 32]]
  {
    assert bytes[|bytes|..] == [];
    assert ToBits(buffer, n) + [] == ToBits(buffer, n);
    PowersToEight();
    hide Pow2;
    if n > 0 {
      LastGroup(buffer, n, 5);
      LowOf32(Shl(buffer, 5 - n));
      LetterOut(ALPHABET32, out, Shl(buffer, 5 - n) % 32, []);
    }
    assert forall s: string :: s + [] == s;
  }

  lemma LetterOut(alphabet: string, out: string, digit: nat, more: seq<nat>)
    requires digit < |alphabet|
    ensures out + Letters(alphabet, [digit] + more) == (out + [alphabet[digit]]) + Letters(alphabet, more)
    ensures [digit] + [] == [digit]
  {
    assert ([digit] + more)[1..] == more;
  }

  /** Encodes through a 32-bit register that is never masked. */
  method Base32Encode(bytes: seq<byte>) returns (out: string)
    ensures out == Base32(bytes)
  {
    hide *;
    AlphabetsAreDistinct();
    out := "";
    var buffer, bits := 0, 0;
    Base32Starts(bytes);
    for i := 0 to |bytes|
      invariant 0 <= buffer < 0x1_0000_0000 && 0 <= bits < 5
      invariant Pending(bytes, out, buffer, bits, BitsOf(bytes[i..]))
    {
      ByteTaken(bytes, i, out, buffer, bits);
      buffer := TakeByte(buffer, bytes[i] as int);
      bits := bits + 8;
      while bits >= 5
        invariant 0 <= bits < 13
        invariant Pending(bytes, out, buffer, bits, BitsOf(bytes[i + 1..]))
      {
        bits := bits - 5;
        GroupOut(bytes, out, buffer, bits, BitsOf(bytes[i + 1..]));
        out := out + [ALPHABET32[Shr(buffer, bits) % 32]];
      }
    }
    LastOut(bytes, out, buffer, bits);
    if bits > 0 {
      out := out + [ALPHABET32[Shl32(buffer, 5 - bits) % 32]];
    }
  }

  // ---------------------------------------------------------------- the base64 encoder

  lemma {:induction false} ShrTwice(v: nat, a: nat, b: nat)
    ensures Shr(v, a + b) == Shr(Shr(v, a), b)
  {
    if a > 0 {
      ShrTwice(v / 2, a - 1, b);
    }
  }

  /** Up to three bytes side by side, absent ones as zero. */
  function Triple(chunk: seq<byte>): nat
    requires 1 <= |chunk| <= 3
  {
    chunk[0] as int * 0x10000
    + (if |chunk| > 1 then chunk[1] as int else 0) * 0x100
    + (if |chunk| > 2 then chunk[2] as int else 0)
  }

  /** One more group of six bits taken from the front. */
  lemma Peel(whole: seq<nat>, front: seq<nat>, t: nat, n: nat, m: nat, rest: seq<Bit>)
    requires n == m + 6 && whole == front + Groups(ToBits(t, n) + rest, 6)
    ensures whole == (front + [Shr(t, m) % 64]) + Groups(ToBits(t, m) + rest, 6)
  {
    PowersToEight();
    OneGroup(t, m, rest, 6);
    var g := Groups(ToBits(t, m) + rest, 6);
    hide *;
    assert 6 + m == n;
    DigitAssoc(front, [Shr(t, m) % 64], g);
  }

  lemma DigitAssoc(a: seq<nat>, b: seq<nat>, c: seq<nat>)
    ensures (a + b) + c == a + (b + c)
  {}

  /** The four groups of a full chunk. */
  lemma FullChunk(bytes: seq<byte>)
    requires |bytes| >= 3
    ensures var t := Triple(bytes[..3]);
            Groups(BitsOf(bytes), 6)
            == [Shr(t, 18) % 64, Shr(t, 12) % 64, Shr(t, 6) % 64, t % 64] + Groups(BitsOf(bytes[3..]), 6)
  {
    hide *;
    var t := Triple(bytes[..3]);
    ThreeBytes(bytes);
    FourPeeled(Groups(BitsOf(bytes), 6), t, BitsOf(bytes[3..]));
  }

  lemma FourPeeled(whole: seq<nat>, t: nat, rest: seq<Bit>)
    requires whole == Groups(ToBits(t, 24) + rest, 6)
    ensures whole == [Shr(t, 18) % 64, Shr(t, 12) % 64, Shr(t, 6) % 64, t % 64] + Groups(rest, 6)
  {
    hide *;
    var a, b, c, d := Shr(t, 18) % 64, Shr(t, 12) % 64, Shr(t, 6) % 64, Shr(t, 0) % 64;
    var f: seq<nat> := [a];
    var g: seq<nat> := f + [b];
    var h: seq<nat> := g + [c];
    assert whole == [] + whole && [] + [a] == f;
    Peel(whole, [], t, 24, 18, rest);
    Peel(whole, f, t, 18, 12, rest);
    Peel(whole, g, t, 12, 6, rest);
    Peel(whole, h, t, 6, 0, rest);
    NoBits(t, rest);
    hide *;
    assert h + [d] == [a, b, c, d];
  }

  lemma Joined(a: nat, b: nat, c: nat)
    ensures [] + [a] + [b] + [c] == [a, b, c] && [] + [a] + [b] == [a, b]
  {}

  lemma NoBits(t: nat, rest: seq<Bit>)
    ensures ToBits(t, 0) + rest == rest && Shr(t, 0) == t
  {}

  lemma BitsFirst(bytes: seq<byte>)
    requires bytes != []
    ensures BitsOf(bytes) == ToBits(bytes[0] as int, 8) + BitsOf(bytes[1..])
  {}

  /** The bits of a number, then those of the first of some bytes: one longer number. */
  lemma JoinByte(v: nat, n: nat, bytes: seq<byte>, w: nat, m: nat, rest: seq<byte>)
    requires bytes != [] && w == v * 256 + bytes[0] as int && m == n + 8 && rest == bytes[1..]
    ensures ToBits(v, n) + BitsOf(bytes) == ToBits(w, m) + BitsOf(rest)
  {
    hide *;
    BitsFirst(bytes);
    ByteAppended(v, bytes[0] as int, n);
    BitAssoc(ToBits(v, n), ToBits(bytes[0] as int, 8), BitsOf(rest));
  }

  lemma TwoBytes(bytes: seq<byte>)
    requires |bytes| >= 2
    ensures BitsOf(bytes) == ToBits(bytes[0] as int * 256 + bytes[1] as int, 16) + BitsOf(bytes[2..])
  {
    hide *;
    BitsFirst(bytes);
    TailBytes(bytes);
    JoinByte(bytes[0] as int, 8, bytes[1..], bytes[0] as int * 256 + bytes[1] as int, 16, bytes[2..]);
  }

  lemma TailBytes(bytes: seq<byte>)
    ensures |bytes| >= 2 ==> bytes[1..][0] == bytes[1] && bytes[1..][1..] == bytes[2..]
    ensures |bytes| >= 3 ==> bytes[2..][0] == bytes[2] && bytes[2..][1..] == bytes[3..]
  {}

  lemma TripleOfThree(bytes: seq<byte>)
    requires |bytes| >= 3
    ensures Triple(bytes[..3]) == (bytes[0] as int * 256 + bytes[1] as int) * 256 + bytes[2] as int
  {
    var chunk := bytes[..3];
    assert chunk[0] == bytes[0] && chunk[1] == bytes[1] && chunk[2] == bytes[2];
  }

  lemma ThreeBytes(bytes: seq<byte>)
    requires |bytes| >= 3
    ensures BitsOf(bytes) == ToBits(Triple(bytes[..3]), 24) + BitsOf(bytes[3..])
  {
    hide *;
    var w := bytes[0] as int * 256 + bytes[1] as int;
    TripleOfThree(bytes);
    TwoBytes(bytes);
    TailBytes(bytes);
    JoinByte(w, 16, bytes[2..], Triple(bytes[..3]), 24, bytes[3..]);
  }

  lemma LastTwo(bytes: seq<byte>)
    requires |bytes| == 2
    ensures var t := Triple(bytes);
            Groups(BitsOf(bytes), 6) == [Shr(t, 18) % 64, Shr(t, 12) % 64, Shr(t, 6) % 64]
  {
    hide *;
    var w := bytes[0] as int * 256 + bytes[1] as int;
    var whole := Groups(BitsOf(bytes), 6);
    TwoBytes(bytes);
    assert bytes[2..] == [];
    NoBytes(w, 4);
    assert whole == [] + whole;
    Peel(whole, [], w, 16, 10, BitsOf([]));
    Peel(whole, [] + [Shr(w, 10) % 64], w, 10, 4, BitsOf([]));
    LastGroup(w, 4, 6);
    ShlSmall(w);
    PowersToEight();
    TripleOfTwo(bytes);
    Joined(Shr(w, 10) % 64, Shr(w, 4) % 64, w * 4 % 64);
  }

  lemma LastOne(bytes: seq<byte>)
    requires |bytes| == 1
    ensures var t := Triple(bytes); Groups(BitsOf(bytes), 6) == [Shr(t, 18) % 64, Shr(t, 12) % 64]
  {
    hide *;
    var w := bytes[0] as int;
    var whole := Groups(BitsOf(bytes), 6);
    BitsFirst(bytes);
    assert bytes[1..] == [];
    NoBytes(w, 2);
    assert whole == [] + whole;
    Peel(whole, [], w, 8, 2, BitsOf([]));
    LastGroup(w, 2, 6);
    ShlSmall(w);
    PowersToEight();
    TripleOfOne(bytes);
    Joined(Shr(w, 2) % 64, w * 16 % 64, 0);
  }

  lemma NoBytes(v: nat, n: nat)
    ensures ToBits(v, n) + BitsOf([]) == ToBits(v, n)
  {}

  lemma ShlSmall(v: nat)
    ensures Shl(v, 2) == v * 4 && Shl(v, 4) == v * 16
  {
    assert Shl(v, 2) == 2 * Shl(v, 1) == 4 * Shl(v, 0);
    assert Shl(v, 4) == 2 * Shl(v, 3) == 4 * Shl(v, 2);
  }

  /** Two bytes of the triple: the third is zero. */
  lemma TripleOfTwo(bytes: seq<byte>)
    requires |bytes| == 2
    ensures var t, w := Triple(bytes), bytes[0] as int * 256 + bytes[1] as int;
            Shr(t, 18) == Shr(w, 10) && Shr(t, 12) == Shr(w, 4) && Shr(t, 6) == w * 4
  {
    var w := bytes[0] as int * 256 + bytes[1] as int;
    assert Triple(bytes) == w * 256;
    hide Triple;
    EightDown(w, 10);
    EightDown(w, 4);
    SixDown(w);
  }

  lemma TripleOfOne(bytes: seq<byte>)
    requires |bytes| == 1
    ensures var t, w := Triple(bytes), bytes[0] as int; Shr(t, 18) == Shr(w, 2) && Shr(t, 12) == w * 16
  {
    var w := bytes[0] as int;
    assert Triple(bytes) == w * 256 * 256;
    hide *;
    EightDown(w * 256, 10);
    EightDown(w, 2);
    EightDown(w * 256, 4);
    FourDown(w);
  }

  lemma EightDown(v: nat, n: nat)
    ensures Shr(v * 256, n + 8) == Shr(v, n)
  {
    ShrTwice(v * 256, 8, n);
    ShiftByEight(v * 256);
  }

  lemma SixDown(v: nat)
    ensures Shr(v * 256, 6) == v * 4
  {
    assert v * 256 / 2 / 2 == v * 64 && v * 64 / 2 / 2 == v * 16 && v * 16 / 2 / 2 == v * 4;
    assert Shr(v * 256, 6) == Shr(v * 64, 4);
    assert Shr(v * 64, 4) == Shr(v * 16, 2);
    assert Shr(v * 16, 2) == Shr(v * 4, 0);
  }

  lemma FourDown(v: nat)
    ensures Shr(v * 256, 4) == v * 16
  {
    assert v * 256 / 2 / 2 == v * 64 && v * 64 / 2 / 2 == v * 16;
    assert Shr(v * 256, 4) == Shr(v * 64, 2);
    assert Shr(v * 64, 2) == Shr(v * 16, 0);
  }

  /** The characters of one chunk. */
  function ChunkText(chunk: seq<byte>): (s: string)
    requires 1 <= |chunk| <= 3 && |ALPHABET64| == 64
    ensures |s| == 4
  {
    var t := Triple(chunk);
    [ALPHABET64[Shr(t, 18) % 64], ALPHABET64[Shr(t, 12) % 64],
     if |chunk| > 1 then ALPHABET64[Shr(t, 6) % 64] else '=',
     if |chunk| > 2 then ALPHABET64[t % 64] else '=']
  }

  /** The encoding chunk by chunk. */
  lemma ChunkFirst(bytes: seq<byte>)
    requires bytes != [] && |ALPHABET64| == 64
    ensures |bytes| >= 3 ==> Base64(bytes) == ChunkText(bytes[..3]) + Base64(bytes[3..])
    ensures |bytes| < 3 ==> Base64(bytes) == ChunkText(bytes)
  {
    hide Shr, Groups, BitsOf, ALPHABET64, Letters, Triple, Padded;
    if |bytes| >= 3 {
      var t := Triple(bytes[..3]);
      FullChunk(bytes);
      FourLetters(Shr(t, 18) % 64, Shr(t, 12) % 64, Shr(t, 6) % 64, t % 64, Groups(BitsOf(bytes[3..]), 6));
    } else {
      var t := Triple(bytes);
      if |bytes| == 2 { LastTwo(bytes); } else { LastOne(bytes); }
      FewLetters(Shr(t, 18) % 64, Shr(t, 12) % 64, Shr(t, 6) % 64);
    }
  }

  lemma LetterFirst(a: nat, more: seq<nat>)
    ensures Letters(ALPHABET64, [a] + more) == [Letter(ALPHABET64, a)] + Letters(ALPHABET64, more)
  {
    assert ([a] + more)[1..] == more;
  }

  lemma FewLetters(a: nat, b: nat, c: nat)
    requires |ALPHABET64| == 64 && a < 64 && b < 64 && c < 64
    ensures Padded(Letters(ALPHABET64, [a, b, c])) == [ALPHABET64[a], ALPHABET64[b], ALPHABET64[c], '=']
    ensures Padded(Letters(ALPHABET64, [a, b])) == [ALPHABET64[a], ALPHABET64[b], '=', '=']
  {
    assert [a, b, c] == [a] + ([b] + ([c] + [])) && [a, b] == [a] + ([b] + []);
    LetterFirst(c, []);
    LetterFirst(b, [c] + []);
    LetterFirst(a, [b] + ([c] + []));
    LetterFirst(b, []);
    LetterFirst(a, [b] + []);
    assert Letters(ALPHABET64, []) == [];
    hide Letters, ALPHABET64;
  }

  lemma FourLetters(a: nat, b: nat, c: nat, d: nat, more: seq<nat>)
    requires |ALPHABET64| == 64 && a < 64 && b < 64 && c < 64 && d < 64
    ensures Padded(Letters(ALPHABET64, [a, b, c, d] + more))
            == [ALPHABET64[a], ALPHABET64[b], ALPHABET64[c], ALPHABET64[d]] + Padded(Letters(ALPHABET64, more))
  {
    hide ALPHABET64, Letters;
    assert [a, b, c, d] + more == [a] + ([b] + ([c] + ([d] + more)));
    LetterFirst(d, more);
    LetterFirst(c, [d] + more);
    LetterFirst(b, [c] + ([d] + more));
    LetterFirst(a, [b] + ([c] + ([d] + more)));
    PadAfterFour([ALPHABET64[a], ALPHABET64[b], ALPHABET64[c], ALPHABET64[d]], Letters(ALPHABET64, more));
    hide Padded;
    FourChars(ALPHABET64[a], ALPHABET64[b], ALPHABET64[c], ALPHABET64[d], Letters(ALPHABET64, more));
  }

  lemma FourChars(a: char, b: char, c: char, d: char, more: string)
    ensures [a] + ([b] + ([c] + ([d] + more))) == [a, b, c, d] + more
  {}

  lemma PadAfterFour(four: string, more: string)
    requires |four| == 4
    ensures Padded(four + more) == four + Padded(more)
  {}

  /** Encodes three bytes at a time. */
  method Base64Encode(data: seq<byte>) returns (out: string)
    ensures out == Base64(data)
  {
    hide *;
    AlphabetsAreDistinct();
    out := "";
    var i := 0;
    assert data[0..] == data && "" + Base64(data) == Base64(data);
    while i < |data|
      invariant 0 <= i <= |data|
      invariant Base64(data) == out + Base64(data[i..])
    {
      var n := if |data| - i < 3 then |data| - i else 3;
      var chunk := data[i..i + n];
      ChunkStep(data, i, out);
      var t := Triple(chunk);
      var before := out;
      out := out + [ALPHABET64[Shr(t, 18) % 64]];
      out := out + [ALPHABET64[Shr(t, 12) % 64]];
      out := out + [if n > 1 then ALPHABET64[Shr(t, 6) % 64] else '='];
      out := out + [if n > 2 then ALPHABET64[t % 64] else '='];
      ChunkWritten(before, chunk, t);
      i := i + n;
    }
    NothingLeft(data, out);
  }

  lemma ChunkStep(data: seq<byte>, i: nat, out: string)
    requires i < |data| && |ALPHABET64| == 64
    ensures var n := if |data| - i < 3 then |data| - i else 3;
            out + Base64(data[i..]) == (out + ChunkText(data[i..i + n])) + Base64(data[i + n..])
  {
    hide *;
    var n := if |data| - i < 3 then |data| - i else 3;
    ChunkFirst(data[i..]);
    assert data[i..][..n] == data[i..i + n] && data[i..][n..] == data[i + n..];
    NothingLeft([], ChunkText(data[i..i + n]));
    assert data[i..][|data| - i..] == [] && data[i..][..|data| - i] == data[i..];
    TextAssoc(out, ChunkText(data[i..i + n]), Base64(data[i + n..]));
  }

  lemma TextAssoc(a: string, b: string, c: string)
    ensures (a + b) + c == a + (b + c)
  {}

  lemma ChunkWritten(out: string, chunk: seq<byte>, t: nat)
    requires 1 <= |chunk| <= 3 && |ALPHABET64| == 64 && t == Triple(chunk)
    ensures out + [ALPHABET64[Shr(t, 18) % 64]] + [ALPHABET64[Shr(t, 12) % 64]]
            + [if |chunk| > 1 then ALPHABET64[Shr(t, 6) % 64] else '=']
            + [if |chunk| > 2 then ALPHABET64[t % 64] else '='] == out + ChunkText(chunk)
  {
    hide Triple, Shr, ALPHABET64;
  }

  lemma NothingLeft(data: seq<byte>, out: string)
    ensures out + Base64(data[|data|..]) == out
  {
    assert data[|data|..] == [];
  }

  lemma ChunkCount(n: nat)
    ensures (n + 3 + 2) / 3 * 4 == 4 + (n + 2) / 3 * 4
  {}

  /** Four characters for every three bytes, begun ones included. */
  lemma {:induction false} Base64Length(bytes: seq<byte>)
    ensures |Base64(bytes)| == (|bytes| + 2) / 3 * 4
    decreases |bytes|
  {
    hide *;
    if bytes == [] {
      NothingLeft([], "");
      assert bytes[|bytes|..] == bytes;
    } else {
      AlphabetsAreDistinct();
      ChunkFirst(bytes);
      hide *;
      if |bytes| >= 3 {
        Base64Length(bytes[3..]);
        ChunkCount(|bytes| - 3);
      }
    }
  }
}
