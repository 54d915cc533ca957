/** A reader of compact JSON text (RFC 8259), and what it makes of canonical texts. */
module JsonReader {
  import opened Text
  import opened Json

  datatype Read<T> = Bad | Got(value: T, rest: string)

  // ---------------------------------------------------------------- reading

  function HexValue(c: char): (n: nat)
    ensures n <= 16
  {
    if '0' <= c <= '9' then c as int - '0' as int
    else if 'a' <= c <= 'f' then c as int - 'a' as int + 10
    else if 'A' <= c <= 'F' then c as int - 'A' as int + 10
    else 16
  }

  /** A character put in front of what has been read. */
  function Before(c: char, r: Read<string>): Read<string> {
    if r.Bad? then Bad else Got([c] + r.value, r.rest)
  }

  /** The character of an escape of one letter (section 7). */
  function Letter(c: char): char {
    match c
    case 'b' => '\U{08}'
    case 'f' => '\U{0C}'
    case 'n' => '\n'
    case 'r' => '\r'
    case 't' => '\t'
    case _ => c
  }

  /** The inside of a string, up to its closing quote. Escapes of surrogates are refused. */
  function ReadChars(s: string): (r: Read<string>)
    ensures r.Got? ==> |r.rest| < |s|
    decreases |s|
  {
    if s == [] || s[0] < ' ' then Bad
    else if s[0] == '"' then Got([], s[1..])
    else if s[0] != '\\' then Before(s[0], ReadChars(s[1..]))
    else if |s| < 2 then Bad
    else if s[1] in {'"', '\\', '/', 'b', 'f', 'n', 'r', 't'} then Before(Letter(s[1]), ReadChars(s[2..]))
    else if s[1] != 'u' || |s| < 6 then Bad
    else
      var a, b, c, d := HexValue(s[2]), HexValue(s[3]), HexValue(s[4]), HexValue(s[5]);
      var n := a * 0x1000 + b * 0x100 + c * 0x10 + d;
      if a == 16 || b == 16 || c == 16 || d == 16 || 0xD800 <= n < 0xE000 then Bad
      else Before(n as char, ReadChars(s[6..]))
  }

  function NumberLength(s: string): (n: nat)
    ensures n <= |s|
  {
    if s != [] && IsNumberChar(s[0]) then 1 + NumberLength(s[1..]) else 0
  }

  function ReadValue(s: string): (r: Read<Value>)
    ensures r.Got? ==> |r.rest| < |s|
    decreases |s|, 0
  {
    if s == [] then Bad
    else if s[0] == '"' then
      (match ReadChars(s[1..]) case Bad => Bad case Got(t, rest) => Got(Str(t), rest))
    else if s[0] == '[' then
      if |s| > 1 && s[1] == ']' then Got(Arr([]), s[2..])
      else (match ReadItems(s[1..]) case Bad => Bad case Got(items, rest) => Got(Arr(items), rest))
    else if s[0] == '{' then
      if |s| > 1 && s[1] == '}' then Got(Obj(map[]), s[2..])
      else (match ReadMembers(s[1..]) case Bad => Bad case Got(fields, rest) => Got(Obj(fields), rest))
    else if "null" <= s then Got(Null, s[4..])
    else if "true" <= s then Got(Bool(true), s[4..])
    else if "false" <= s then Got(Bool(false), s[5..])
    else
      var n := NumberLength(s);
      if IsNumberText(s[..n]) then Got(Number(s[..n]), s[n..]) else Bad
  }

  /** Array items up to the closing bracket. */
  function ReadItems(s: string): (r: Read<seq<Value>>)
    ensures r.Got? ==> |r.rest| < |s|
    decreases |s|, 1
  {
    match ReadValue(s)
    case Bad => Bad
    case Got(v, rest) =>
      if rest == [] then Bad
      else if rest[0] == ']' then Got([v], rest[1..])
      else if rest[0] != ',' then Bad
      else (match ReadItems(rest[1..]) case Bad => Bad case Got(more, end) => Got([v] + more, end))
  }

  /** Object members up to the closing brace; the last of two members with one name counts. */
  function ReadMembers(s: string): (r: Read<map<string, Value>>)
    ensures r.Got? ==> |r.rest| < |s|
    decreases |s|, 1
  {
    if s == [] || s[0] != '"' then Bad
    else
      match ReadChars(s[1..])
      case Bad => Bad
      case Got(k, colon) =>
        if colon == [] || colon[0] != ':' then Bad
        else
          match ReadValue(colon[1..])
          case Bad => Bad
          case Got(v, rest) =>
            if rest == [] then Bad
            else if rest[0] == '}' then Got(map[k := v], rest[1..])
            else if rest[0] != ',' then Bad
            else
              match ReadMembers(rest[1..])
              case Bad => Bad
              case Got(more, end) => Got(if k in more then more else more[k := v], end)
  }

  // ---------------------------------------------------------------- canonical texts are read back

  lemma PlainCharReads(c: char, more: string)
    requires c >= ' ' && c != '"' && c != '\\'
    ensures ReadChars([c] + more) == Before(c, ReadChars(more))
  {
    assert ([c] + more)[1..] == more;
  }

  lemma LetterReads(c: char, more: string)
    requires c in {'"', '\\', 'b', 'f', 'n', 'r', 't'}
    ensures ReadChars(['\\', c] + more) == Before(Letter(c), ReadChars(more))
  {
    assert (['\\', c] + more)[2..] == more;
  }

  lemma HexEscapeReads(m: nat, n: nat, more: string)
    requires m < 16 && n < 16
    ensures ReadChars(['\\', 'u', '0', '0', HexDigit(m), HexDigit(n)] + more) ==
            Before((16 * m + n) as char, ReadChars(more))
  {
    HexDigitReads(m);
    HexDigitReads(n);
    HexDigitReads(0);
    hide HexDigit, HexValue;
    var s := ['\\', 'u', '0', '0', HexDigit(m), HexDigit(n)] + more;
    assert s[6..] == more && s[4] == HexDigit(m) && s[5] == HexDigit(n);
    assert HexValue('0') == 0 by { ZeroDigit(); }
  }

  lemma ZeroDigit()
    ensures HexValue('0') == 0
  {}

  lemma EscapedCharReads(c: char, more: string)
    ensures ReadChars(EscapeChar(c) + more) == Before(c, ReadChars(more))
  {
    hide ReadChars;
    if c == '"' { LetterReads('"', more); }
    else if c == '\\' { LetterReads('\\', more); }
    else if c == '\n' { LetterReads('n', more); }
    else if c == '\r' { LetterReads('r', more); }
    else if c == '\t' { LetterReads('t', more); }
    else if c == '\U{08}' { LetterReads('b', more); }
    else if c == '\U{0C}' { LetterReads('f', more); }
    else if c < ' ' {
      var m, n := c as int / 16, c as int % 16;
      HexEscapeReads(m, n, more);
      assert EscapeChar(c) == ['\\', 'u', '0', '0', HexDigit(m), HexDigit(n)];
    } else { PlainCharReads(c, more); }
  }

  lemma HexDigitReads(n: nat)
    requires n < 16
    ensures HexValue(HexDigit(n)) == n
  {}

  /** Every escaped string is read back. */
  lemma {:induction false} EscapedReads(s: string, rest: string)
    ensures ReadChars(Escape(s) + "\"" + rest) == Got(s, rest)
  {
    if s == [] {
      assert Escape(s) + "\"" + rest == "\"" + rest;
    } else {
      EscapeHead(s, rest);
      EscapedReads(s[1..], rest);
      EscapedCharReads(s[0], Escape(s[1..]) + "\"" + rest);
      assert s == [s[0]] + s[1..];
    }
  }

  lemma StringIsRead(s: string, rest: string)
    ensures JsonString(s) + rest != [] && (JsonString(s) + rest)[0] == '"'
    ensures ReadChars((JsonString(s) + rest)[1..]) == Got(s, rest)
  {
    EscapedReads(s, rest);
    hide Escape, ReadChars;
    assert (JsonString(s) + rest)[1..] == Escape(s) + "\"" + rest;
  }

  lemma {:induction false} NumberLengthStops(s: string, rest: string)
    requires (forall i :: 0 <= i < |s| ==> IsNumberChar(s[i])) && Stops(rest)
    ensures NumberLength(s + rest) == |s|
  {
    if s == [] {
      assert s + rest == rest;
    } else {
      assert (s + rest)[1..] == s[1..] + rest;
      NumberLengthStops(s[1..], rest);
    }
  }

  lemma NumberIsRead(text: NumberText, rest: string)
    requires Stops(rest)
    ensures ReadValue(text + rest) == Got(Number(text), rest)
  {
    NumberLengthStops(text, rest);
    var s := text + rest;
    assert s[0] == text[0] && s[..|text|] == text && s[|text|..] == rest;
    hide NumberLength;
  }

  lemma ConstantIsRead(v: Value, rest: string)
    requires v.Null? || v.Bool?
    ensures ReadValue(Canon(v) + rest) == Got(v, rest)
  {
    var s := Canon(v) + rest;
    assert s[0] == Canon(v)[0] && s[|Canon(v)|..] == rest;
    if v.Null? { assert "null" <= s; }
    else if v.b { assert "true" <= s; }
    else { assert s[..5] == "false" && "false" <= s; }
  }

  /** Every canonical text is read back to its value, and no further. */
  lemma {:induction false} CanonIsRead(v: Value, rest: string)
    requires Stops(rest)
    ensures ReadValue(Canon(v) + rest) == Got(v, rest)
    decreases v
  {
    match v {
      case Null | Bool(_) => ConstantIsRead(v, rest);
      case Number(text) => NumberIsRead(text, rest);
      case Str(s) => StringIsRead(s, rest);
      case Arr(items) =>
        if items == [] {
          assert Canon(v) + rest == "[]" + rest && ("[]" + rest)[2..] == rest;
        } else {
          ItemsAreRead(v, items, rest);
          ItemsStart(v, items, rest);
          OpenBracket("[", ItemsText(v, items), rest);
          hide ItemsText, ReadItems;
        }
      case Obj(fields) => ObjectIsRead(v, rest);
    }
  }

  lemma OpenBracket(c: string, text: string, rest: string)
    requires |c| == 1
    ensures (c + text + rest)[0] == c[0] && (c + text + rest)[1..] == text + rest
    ensures text != [] ==> (c + text + rest)[1] == text[0] == (text + rest)[0]
  {}

  lemma ItemsStart(v: Value, items: seq<Value>, rest: string)
    requires items != [] && forall i :: 0 <= i < |items| ==> items[i] < v
    ensures ItemsText(v, items) != [] && ItemsText(v, items)[0] != ']'
  {
    CanonStart(items[0]);
    hide Canon, MoreItems;
  }

  lemma {:induction false} ItemsAreRead(v: Value, items: seq<Value>, rest: string)
    requires items != [] && forall i :: 0 <= i < |items| ==> items[i] < v
    ensures ReadItems(ItemsText(v, items) + rest) == Got(items, rest)
    decreases v, |items|
  {
    var first, more := Canon(items[0]), MoreItems(v, items[1..]);
    assert ItemsText(v, items) + rest == first + (more + rest);
    assert (more + rest)[0] == more[0];
    CanonIsRead(items[0], more + rest);
    if |items| > 1 {
      ItemsAreRead(v, items[1..], rest);
      MoreIsItems(v, items[1..], rest);
      assert items == [items[0]] + items[1..];
    } else {
      assert items == [items[0]] && more + rest == "]" + rest && ("]" + rest)[1..] == rest;
    }
    hide Canon, MoreItems, ReadValue;
  }

  lemma MoreIsItems(v: Value, items: seq<Value>, rest: string)
    requires items != [] && forall i :: 0 <= i < |items| ==> items[i] < v
    ensures (MoreItems(v, items) + rest)[1..] == ItemsText(v, items) + rest
  {
    hide Canon;
    Shifted(",", Canon(items[0]), MoreItems(v, items[1..]), rest);
  }

  lemma Shifted(c: string, a: string, b: string, rest: string)
    requires |c| == 1
    ensures (c + a + b + rest)[1..] == a + b + rest
  {}

  lemma {:induction false} ObjectIsRead(v: Value, rest: string)
    requires v.Obj?
    ensures ReadValue(Canon(v) + rest) == Got(v, rest)
    decreases v, |SortedKeys(v.fields.Keys)| + 2
  {
    hide SortedKeys;
    MembersInAnyOrder(v, SortedKeys(v.fields.Keys), rest);
  }

  /** The members in any order, as long as it names them all. */
  lemma {:induction false} MembersInAnyOrder(v: Value, ks: seq<string>, rest: string)
    requires v.Obj? && forall k :: k in ks <==> k in v.fields
    ensures ReadValue("{" + PairsText(v, ks) + rest) == Got(v, rest)
    decreases v, |ks| + 1
  {
    if ks == [] {
      assert v.fields == map[];
      assert "{" + PairsText(v, ks) + rest == "{}" + rest && ("{}" + rest)[2..] == rest;
    } else {
      MembersAreRead(v, ks, rest);
      PairsStart(v, ks);
      OpenBracket("{", PairsText(v, ks), rest);
      hide PairsText, ReadMembers;
      assert v.fields == map k | k in ks :: v.fields[k];
    }
  }

  lemma PairsStart(v: Value, ks: seq<string>)
    requires v.Obj? && ks != [] && forall k :: k in ks ==> k in v.fields
    ensures PairsText(v, ks) != [] && PairsText(v, ks)[0] == '"'
  {
    hide Canon, Escape, MorePairs;
  }

  lemma {:induction false} MembersAreRead(v: Value, ks: seq<string>, rest: string)
    requires v.Obj? && ks != [] && forall k :: k in ks ==> k in v.fields
    ensures ReadMembers(PairsText(v, ks) + rest) == Got(map k | k in ks :: v.fields[k], rest)
    decreases v, |ks|
  {
    var k, more := ks[0], MorePairs(v, ks[1..]);
    var colon := ":" + (Canon(v.fields[k]) + (more + rest));
    PairFirst(v, ks, rest);
    StringIsRead(k, colon);
    assert colon[1..] == Canon(v.fields[k]) + (more + rest);
    assert (more + rest)[0] == more[0];
    CanonIsRead(v.fields[k], more + rest);
    if |ks| > 1 {
      MembersAreRead(v, ks[1..], rest);
      MoreIsPairs(v, ks[1..], rest);
    } else {
      assert more + rest == "}" + rest && ("}" + rest)[1..] == rest;
    }
    hide Canon, MorePairs, ReadValue, ReadChars, PairsText, JsonString;
    KeysOfFirst(v, ks);
  }

  lemma KeysOfFirst(v: Value, ks: seq<string>)
    requires v.Obj? && ks != [] && forall k :: k in ks ==> k in v.fields
    ensures var first := map[ks[0] := v.fields[ks[0]]];
            var later := map k | k in ks[1..] :: v.fields[k];
            (map k | k in ks :: v.fields[k]) ==
            if |ks| == 1 then first else if ks[0] in later then later else later[ks[0] := v.fields[ks[0]]]
  {
    assert ks == [ks[0]] + ks[1..];
  }

  lemma PairFirst(v: Value, ks: seq<string>, rest: string)
    requires v.Obj? && ks != [] && forall k :: k in ks ==> k in v.fields
    ensures PairsText(v, ks) + rest ==
            JsonString(ks[0]) + (":" + (Canon(v.fields[ks[0]]) + (MorePairs(v, ks[1..]) + rest)))
  {
    hide JsonString, Canon, MorePairs;
    FourJoined(JsonString(ks[0]), ":", Canon(v.fields[ks[0]]), MorePairs(v, ks[1..]), rest);
  }

  lemma FourJoined(a: string, b: string, c: string, d: string, e: string)
    ensures a + b + c + d + e == a + (b + (c + (d + e)))
  {}

  lemma MoreIsPairs(v: Value, ks: seq<string>, rest: string)
    requires v.Obj? && ks != [] && forall k :: k in ks ==> k in v.fields
    ensures (MorePairs(v, ks) + rest)[1..] == PairsText(v, ks) + rest
  {
    hide PairText;
    Shifted(",", PairText(v, ks[0]), MorePairs(v, ks[1..]), rest);
  }
}
