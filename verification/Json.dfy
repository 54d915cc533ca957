/** Canonical JSON text, as hashed into the audit chain, and why two values
    never share it. */
module Json {
  import opened Text

  /** Characters of a printed JSON number; a number is kept as its printed form. */
  predicate IsNumberChar(c: char) {
    IsDigit(c) || c in {'-', '+', '.', 'e', 'E'}
  }

  predicate IsNumberText(s: string) {
    s != [] && (IsDigit(s[0]) || s[0] == '-') && forall i :: 0 <= i < |s| ==> IsNumberChar(s[i])
  }

  type NumberText = s: string | IsNumberText(s) witness "0"

  datatype Value =
    | Null
    | Bool(b: bool)
    | Number(text: NumberText)
    | Str(s: string)
    | Arr(items: seq<Value>)
    | Obj(fields: map<string, Value>)

  // ---------------------------------------------------------------- key order

  /** `String` order: lexicographic by code point. */
  predicate Less(a: string, b: string) {
    b != [] && (a == [] || a[0] < b[0] || (a[0] == b[0] && Less(a[1..], b[1..])))
  }

  lemma {:induction false} LessTotal(a: string, b: string)
    ensures a == b || Less(a, b) || Less(b, a)
    ensures !(Less(a, b) && Less(b, a)) && !Less(a, a)
  {
    if a != [] {
      LessTotal(a[1..], a[1..]);
      if b != [] {
        LessTotal(a[1..], b[1..]);
        assert a == [a[0]] + a[1..] && b == [b[0]] + b[1..];
      }
    }
  }

  lemma {:induction false} LessTransitive(a: string, b: string, c: string)
    requires Less(a, b) && Less(b, c)
    ensures Less(a, c)
  {
    if a != [] && a[0] == b[0] && b[0] == c[0] {
      LessTransitive(a[1..], b[1..], c[1..]);
    }
  }

  predicate IsLeast(k: string, keys: set<string>) {
    k in keys && forall j :: j in keys && j != k ==> Less(k, j)
  }

  lemma {:induction false} LeastExists(keys: set<string>)
    requires keys != {}
    ensures exists k :: IsLeast(k, keys)
  {
    var j :| j in keys;
    var rest := keys - {j};
    if rest == {} {
      assert forall i :: i in keys && i != j ==> i in rest;
      assert IsLeast(j, keys);
    } else {
      LeastExists(rest);
      var k :| IsLeast(k, rest);
      LessTotal(j, k);
      if Less(j, k) {
        forall i | i in keys && i != j ensures Less(j, i) {
          if i != k { LessTransitive(j, k, i); }
        }
        assert IsLeast(j, keys);
      } else {
        assert IsLeast(k, keys);
      }
    }
  }

  lemma LeastIsUnique(j: string, k: string, keys: set<string>)
    requires IsLeast(j, keys) && IsLeast(k, keys)
    ensures j == k
  {
    LessTotal(j, k);
  }

  /** The keys in ascending order. */
  function SortedKeys(keys: set<string>): (ks: seq<string>)
    ensures forall k :: k in ks <==> k in keys
    decreases |keys|
  {
    if keys == {} then []
    else
      LeastExists(keys);
      assert forall j, k | IsLeast(j, keys) && IsLeast(k, keys) :: j == k by {
        forall j, k | IsLeast(j, keys) && IsLeast(k, keys) ensures j == k { LeastIsUnique(j, k, keys); }
      }
      var k :| IsLeast(k, keys);
      [k] + SortedKeys(keys - {k})
  }

  predicate Ascending(ks: seq<string>) {
    forall i, j :: 0 <= i < j < |ks| ==> Less(ks[i], ks[j])
  }

  /** A strictly ascending listing of the keys is the sorted listing. */
  lemma {:induction false} AscendingIsSorted(ks: seq<string>, keys: set<string>)
    requires Ascending(ks) && forall k :: k in ks <==> k in keys
    ensures SortedKeys(keys) == ks
    decreases |ks|
  {
    if ks == [] {
      assert keys == {};
    } else {
      var k := ks[0];
      assert IsLeast(k, keys);
      forall j | IsLeast(j, keys) ensures j == k { LeastIsUnique(j, k, keys); }
      LessTotal(k, k);
      forall j ensures j in ks[1..] <==> j in keys - {k} {
        if j in ks[1..] {
          var i :| 0 <= i < |ks[1..]| && ks[1..][i] == j;
          assert ks[i + 1] == j && Less(k, j);
        }
      }
      AscendingIsSorted(ks[1..], keys - {k});
    }
  }

  // ---------------------------------------------------------------- printing

  function HexDigit(n: nat): char
    requires n < 16
  {
    "0123456789abcdef"[n]
  }

  function EscapeChar(c: char): (s: string)
    ensures s != []
  {
    if c == '"' then "\\\""
    else if c == '\\' then "\\\\"
    else if c == '\n' then "\\n"
    else if c == '\r' then "\\r"
    else if c == '\t' then "\\t"
    else if c == '\U{08}' then "\\b"
    else if c == '\U{0C}' then "\\f"
    else if c < ' ' then "\\u00" + [HexDigit(c as int / 16), HexDigit(c as int % 16)]
    else [c]
  }

  function Escape(s: string): string {
    if s == [] then [] else EscapeChar(s[0]) + Escape(s[1..])
  }

  function JsonString(s: string): string {
    "\"" + Escape(s) + "\""
  }

  /** The escaping loop. */
  method PushJsonString(s: string) returns (out: string)
    ensures out == JsonString(s)
  {
    assert Escape(s[..0]) == [] && "\"" + [] == "\"";
    hide Escape, EscapeChar;
    out := "\"";
    for i := 0 to |s|
      invariant out == "\"" + Escape(s[..i])
    {
      EscapeStep("\"", s, i);
      out := out + EscapeChar(s[i]);
    }
    assert s[..|s|] == s;
    out := out + "\"";
  }

  lemma EscapeStep(open: string, s: string, i: nat)
    requires i < |s|
    ensures open + Escape(s[..i]) + EscapeChar(s[i]) == open + Escape(s[..i + 1])
  {
    assert s[..i + 1] == s[..i] + [s[i]];
    EscapeSnoc(s[..i], s[i]);
  }

  lemma {:induction false} EscapeSnoc(s: string, c: char)
    ensures Escape(s + [c]) == Escape(s) + EscapeChar(c)
  {
    if s == [] {
      assert [c][1..] == [];
    } else {
      assert (s + [c])[1..] == s[1..] + [c];
      EscapeSnoc(s[1..], c);
    }
  }

  function Canon(v: Value): string
    decreases v
  {
    match v
    case Null => "null"
    case Bool(b) => if b then "true" else "false"
    case Number(text) => text
    case Str(s) => JsonString(s)
    case Arr(items) => "[" + ItemsText(v, items)
    case Obj(fields) => "{" + PairsText(v, SortedKeys(fields.Keys))
  }

  /** Array items and the closing bracket. */
  function ItemsText(v: Value, items: seq<Value>): string
    requires forall i :: 0 <= i < |items| ==> items[i] < v
    decreases v, |items|
  {
    if items == [] then "]" else Canon(items[0]) + MoreItems(v, items[1..])
  }

  function MoreItems(v: Value, items: seq<Value>): (s: string)
    requires forall i :: 0 <= i < |items| ==> items[i] < v
    ensures s != [] && s[0] == if items == [] then ']' else ','
    decreases v, |items|
  {
    if items == [] then "]" else "," + Canon(items[0]) + MoreItems(v, items[1..])
  }

  /** Object members in the given key order and the closing brace. */
  function PairsText(v: Value, ks: seq<string>): string
    requires v.Obj? && forall k :: k in ks ==> k in v.fields
    decreases v, |ks|
  {
    if ks == [] then "}" else PairText(v, ks[0]) + MorePairs(v, ks[1..])
  }

  function MorePairs(v: Value, ks: seq<string>): (s: string)
    requires v.Obj? && forall k :: k in ks ==> k in v.fields
    ensures s != [] && s[0] == if ks == [] then '}' else ','
    decreases v, |ks|
  {
    if ks == [] then "}" else "," + PairText(v, ks[0]) + MorePairs(v, ks[1..])
  }

  function PairText(v: Value, k: string): string
    requires v.Obj? && k in v.fields
    decreases v, 0
  {
    JsonString(k) + ":" + Canon(v.fields[k])
  }

  // ---------------------------------------------------------------- unique readability

  /** What may follow a value: the end, or the next separator or bracket. */
  predicate Stops(rest: string) {
    rest == [] || rest[0] in {',', ']', '}'}
  }

  lemma EscapeCharReads(c: char, d: char, x: string, y: string)
    requires EscapeChar(c) + x == EscapeChar(d) + y
    ensures c == d && x == y
  {
    var u, v := EscapeChar(c) + x, EscapeChar(d) + y;
    assert u[0] == v[0];
    assert |EscapeChar(c)| > 1 ==> u[1] == EscapeChar(c)[1];
    assert |EscapeChar(d)| > 1 ==> v[1] == EscapeChar(d)[1];
    if |EscapeChar(c)| == 6 {
      assert u[4] == EscapeChar(c)[4] && u[5] == EscapeChar(c)[5];
      assert |EscapeChar(d)| == 6;
      assert v[4] == EscapeChar(d)[4] && v[5] == EscapeChar(d)[5];
      HexReads(c as int / 16, d as int / 16);
      HexReads(c as int % 16, d as int % 16);
      assert c as int == d as int;
    }
    assert c == d;
    assert u[|EscapeChar(c)|..] == x && v[|EscapeChar(d)|..] == y;
  }

  lemma HexReads(m: nat, n: nat)
    requires m < 16 && n < 16 && HexDigit(m) == HexDigit(n)
    ensures m == n
  {}

  lemma QuoteIsNoEscape(c: char)
    ensures EscapeChar(c)[0] != '"'
  {}

  /** A quoted string is self-delimiting. */
  lemma {:induction false} EscapeReads(a: string, b: string, r: string, t: string)
    requires Escape(a) + "\"" + r == Escape(b) + "\"" + t
    ensures a == b && r == t
    decreases |a|
  {
    var u, v := Escape(a) + "\"" + r, Escape(b) + "\"" + t;
    if a == [] {
      assert u == "\"" + r;
      if b != [] { EscapeHead(b, t); QuoteIsNoEscape(b[0]); assert false; }
      assert v == "\"" + t;
      assert u[1..] == r && v[1..] == t;
    } else if b == [] {
      assert v == "\"" + t;
      EscapeHead(a, r);
      QuoteIsNoEscape(a[0]);
      assert false;
    } else {
      EscapeHead(a, r);
      EscapeHead(b, t);
      EscapeCharReads(a[0], b[0], Escape(a[1..]) + "\"" + r, Escape(b[1..]) + "\"" + t);
      EscapeReads(a[1..], b[1..], r, t);
      assert a == [a[0]] + a[1..] && b == [b[0]] + b[1..];
    }
  }

  lemma EscapeHead(a: string, r: string)
    requires a != []
    ensures Escape(a) + "\"" + r == EscapeChar(a[0]) + (Escape(a[1..]) + "\"" + r)
    ensures (Escape(a) + "\"" + r)[0] == EscapeChar(a[0])[0]
  {}

  lemma JsonStringReads(a: string, b: string, r: string, t: string)
    requires JsonString(a) + r == JsonString(b) + t
    ensures a == b && r == t
  {
    hide Escape;
    var u, v := JsonString(a) + r, JsonString(b) + t;
    assert u[1..] == Escape(a) + "\"" + r;
    assert v[1..] == Escape(b) + "\"" + t;
    EscapeReads(a, b, r, t);
  }

  lemma NumberReads(a: NumberText, b: NumberText, r: string, t: string)
    requires a + r == b + t && Stops(r) && Stops(t)
    ensures a == b && r == t
  {
    var u := a + r;
    assert |a| < |b| ==> (b + t)[|a|] == b[|a|] && IsNumberChar(b[|a|]);
    assert |b| < |a| ==> (a + r)[|b|] == a[|b|] && IsNumberChar(a[|b|]);
    assert u[..|a|] == a && u[|a|..] == r;
    assert (b + t)[..|b|] == b && (b + t)[|b|..] == t;
  }

  /** The first character tells the kinds of value apart, and is never a closing bracket. */
  function Kind(c: char): nat {
    if c == 'n' then 0 else if c == 't' || c == 'f' then 1 else if c == '"' then 3
    else if c == '[' then 4 else if c == '{' then 5 else if IsDigit(c) || c == '-' then 2 else 6
  }

  function KindOf(v: Value): nat {
    match v
    case Null => 0
    case Bool(_) => 1
    case Number(_) => 2
    case Str(_) => 3
    case Arr(_) => 4
    case Obj(_) => 5
  }

  lemma CanonStart(v: Value)
    ensures Canon(v) != [] && Kind(Canon(v)[0]) == KindOf(v)
  {}

  /** Canonical text is injective and self-delimiting. */
  lemma {:induction false} CanonReads(v: Value, w: Value, r: string, t: string)
    requires Canon(v) + r == Canon(w) + t && Stops(r) && Stops(t)
    ensures v == w && r == t
    decreases v
  {
    SameKind(v, w, r, t);
    match v {
      case Null | Bool(_) => ConstantReads(v, w, r, t);
      case Number(text) => NumberReads(text, w.text, r, t);
      case Str(s) => JsonStringReads(s, w.s, r, t);
      case Arr(items) =>
        hide ItemsText;
        DropFirst("[", ItemsText(v, items), r);
        DropFirst("[", ItemsText(w, w.items), t);
        ItemsRead(v, items, w, w.items, r, t);
      case Obj(fields) => ObjectReads(v, w, r, t);
    }
  }

  lemma {:induction false} ObjectReads(v: Value, w: Value, r: string, t: string)
    requires v.Obj? && w.Obj?
    requires Canon(v) + r == Canon(w) + t && Stops(r) && Stops(t)
    ensures v == w && r == t
    decreases v, |SortedKeys(v.fields.Keys)| + 1
  {
    hide PairsText, SortedKeys;
    var ks, ls := SortedKeys(v.fields.Keys), SortedKeys(w.fields.Keys);
    DropFirst("{", PairsText(v, ks), r);
    DropFirst("{", PairsText(w, ls), t);
    PairsRead(v, ks, w, ls, r, t);
    forall k ensures k in v.fields <==> k in w.fields {
      assert k in ks <==> k in ls;
    }
    assert v.fields == w.fields;
  }

  lemma DropFirst(c: string, a: string, b: string)
    requires |c| == 1
    ensures (c + a + b)[1..] == a + b
  {}

  lemma SameKind(v: Value, w: Value, r: string, t: string)
    requires Canon(v) + r == Canon(w) + t
    ensures KindOf(v) == KindOf(w)
  {
    CanonStart(v);
    CanonStart(w);
    hide Canon, KindOf;
    assert (Canon(v) + r)[0] == Canon(v)[0] && (Canon(w) + t)[0] == Canon(w)[0];
  }

  lemma ConstantReads(v: Value, w: Value, r: string, t: string)
    requires (v.Null? && w.Null?) || (v.Bool? && w.Bool?)
    requires Canon(v) + r == Canon(w) + t
    ensures v == w && r == t
  {
    assert (Canon(v) + r)[0] == Canon(v)[0] && (Canon(w) + t)[0] == Canon(w)[0];
    assert v == w;
    assert (Canon(v) + r)[|Canon(v)|..] == r && (Canon(w) + t)[|Canon(w)|..] == t;
  }

  lemma {:induction false} ItemsRead(v: Value, a: seq<Value>, w: Value, b: seq<Value>, r: string, t: string)
    requires forall i :: 0 <= i < |a| ==> a[i] < v
    requires forall i :: 0 <= i < |b| ==> b[i] < w
    requires ItemsText(v, a) + r == ItemsText(w, b) + t && Stops(r) && Stops(t)
    ensures a == b && r == t
    decreases v, |a|
  {
    hide Canon, MoreItems, Kind;
    var x, y := ItemsText(v, a) + r, ItemsText(w, b) + t;
    if a == [] || b == [] {
      ItemsEmpty(v, a, r);
      ItemsEmpty(w, b, t);
      assert x[1..] == r && y[1..] == t;
    } else {
      var p, q := MoreItems(v, a[1..]) + r, MoreItems(w, b[1..]) + t;
      assert x == Canon(a[0]) + p && y == Canon(b[0]) + q;
      CanonReads(a[0], b[0], p, q);
      MoreItemsRead(v, a[1..], w, b[1..], r, t);
      assert a == [a[0]] + a[1..] && b == [b[0]] + b[1..];
    }
  }

  lemma ItemsEmpty(v: Value, a: seq<Value>, r: string)
    requires forall i :: 0 <= i < |a| ==> a[i] < v
    ensures (ItemsText(v, a) + r)[0] == ']' <==> a == []
  {
    if a != [] {
      CanonStart(a[0]);
      assert (ItemsText(v, a) + r)[0] == Canon(a[0])[0];
    }
  }

  lemma {:induction false} MoreItemsRead(v: Value, a: seq<Value>, w: Value, b: seq<Value>, r: string, t: string)
    requires forall i :: 0 <= i < |a| ==> a[i] < v
    requires forall i :: 0 <= i < |b| ==> b[i] < w
    requires MoreItems(v, a) + r == MoreItems(w, b) + t && Stops(r) && Stops(t)
    ensures a == b && r == t
    decreases v, |a|
  {
    hide Canon;
    var x, y := MoreItems(v, a) + r, MoreItems(w, b) + t;
    assert x[0] == MoreItems(v, a)[0] && y[0] == MoreItems(w, b)[0];
    if a == [] {
      assert x[1..] == r && y[1..] == t;
    } else {
      var p, q := MoreItems(v, a[1..]) + r, MoreItems(w, b[1..]) + t;
      assert x[1..] == Canon(a[0]) + p && y[1..] == Canon(b[0]) + q;
      hide MoreItems;
      CanonReads(a[0], b[0], p, q);
      MoreItemsRead(v, a[1..], w, b[1..], r, t);
      assert a == [a[0]] + a[1..] && b == [b[0]] + b[1..];
    }
  }

  lemma {:induction false} PairReads(v: Value, k: string, w: Value, l: string, r: string, t: string)
    requires v.Obj? && k in v.fields && w.Obj? && l in w.fields
    requires PairText(v, k) + r == PairText(w, l) + t && Stops(r) && Stops(t)
    ensures k == l && v.fields[k] == w.fields[l] && r == t
    decreases v, 0
  {
    hide Canon, JsonString;
    var p, q := Canon(v.fields[k]) + r, Canon(w.fields[l]) + t;
    assert PairText(v, k) + r == JsonString(k) + (":" + p);
    assert PairText(w, l) + t == JsonString(l) + (":" + q);
    JsonStringReads(k, l, ":" + p, ":" + q);
    assert (":" + p)[1..] == p && (":" + q)[1..] == q;
    CanonReads(v.fields[k], w.fields[l], r, t);
  }

  lemma {:induction false} PairsRead(v: Value, ks: seq<string>, w: Value, ls: seq<string>, r: string, t: string)
    requires v.Obj? && (forall k :: k in ks ==> k in v.fields)
    requires w.Obj? && (forall k :: k in ls ==> k in w.fields)
    requires PairsText(v, ks) + r == PairsText(w, ls) + t && Stops(r) && Stops(t)
    ensures ks == ls && r == t && forall k :: k in ks ==> v.fields[k] == w.fields[k]
    decreases v, |ks|, 1
  {
    hide PairText, MorePairs;
    var x, y := PairsText(v, ks) + r, PairsText(w, ls) + t;
    if ks == [] || ls == [] {
      PairsEmpty(v, ks, r);
      PairsEmpty(w, ls, t);
      assert x[1..] == r && y[1..] == t;
    } else {
      var p, q := MorePairs(v, ks[1..]) + r, MorePairs(w, ls[1..]) + t;
      assert x == PairText(v, ks[0]) + p && y == PairText(w, ls[0]) + q;
      PairReads(v, ks[0], w, ls[0], p, q);
      MorePairsRead(v, ks[1..], w, ls[1..], r, t);
      assert ks == [ks[0]] + ks[1..] && ls == [ls[0]] + ls[1..];
    }
  }

  lemma PairsEmpty(v: Value, ks: seq<string>, r: string)
    requires v.Obj? && (forall k :: k in ks ==> k in v.fields)
    ensures (PairsText(v, ks) + r)[0] == '}' <==> ks == []
  {
    if ks != [] {
      assert (PairsText(v, ks) + r)[0] == PairText(v, ks[0])[0] == '"';
    }
  }

  lemma {:induction false} MorePairsRead(v: Value, ks: seq<string>, w: Value, ls: seq<string>, r: string, t: string)
    requires v.Obj? && (forall k :: k in ks ==> k in v.fields)
    requires w.Obj? && (forall k :: k in ls ==> k in w.fields)
    requires MorePairs(v, ks) + r == MorePairs(w, ls) + t && Stops(r) && Stops(t)
    ensures ks == ls && r == t && forall k :: k in ks ==> v.fields[k] == w.fields[k]
    decreases v, |ks|, 0
  {
    hide PairText;
    var x, y := MorePairs(v, ks) + r, MorePairs(w, ls) + t;
    assert x[0] == MorePairs(v, ks)[0] && y[0] == MorePairs(w, ls)[0];
    if ks == [] {
      assert x[1..] == r && y[1..] == t;
    } else {
      var p, q := MorePairs(v, ks[1..]) + r, MorePairs(w, ls[1..]) + t;
      assert x[1..] == PairText(v, ks[0]) + p && y[1..] == PairText(w, ls[0]) + q;
      hide MorePairs;
      PairReads(v, ks[0], w, ls[0], p, q);
      MorePairsRead(v, ks[1..], w, ls[1..], r, t);
      assert ks == [ks[0]] + ks[1..] && ls == [ls[0]] + ls[1..];
    }
  }

  /** Distinct values have distinct canonical texts. */
  lemma CanonInjective(v: Value, w: Value)
    requires Canon(v) == Canon(w)
    ensures v == w
  {
    assert Canon(v) + [] == Canon(v) && Canon(w) + [] == Canon(w);
    CanonReads(v, w, [], []);
  }
}
