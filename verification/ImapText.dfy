/** IMAP string leaves (section 4.3 of RFC 3501): the quoted and literal forms
    the server prints, and a strict reader of parenthesised lists over bytes. */
module ImapText {
  import opened Common
  import opened Text
  import opened Utf8

  type Bytes = seq<byte>

  // ---------------------------------------------------------------- printing

  function QuotedChar(c: char): string {
    if c == '"' then "\\\"" else if c == '\\' then "\\\\"
    else if c == '\r' || c == '\n' then " " else [c]
  }

  function QuotedBody(value: string): string {
    if value == [] then [] else QuotedChar(value[0]) + QuotedBody(value[1..])
  }

  function Quoted(value: string): string {
    "\"" + QuotedBody(value) + "\""
  }

  /** The quoting loop: one output buffer, one character at a time. */
  method PushQuoted(value: string) returns (out: string)
    ensures out == Quoted(value)
  {
    out := "\"";
    for i := 0 to |value|
      invariant out == "\"" + QuotedBody(value[..i])
    {
      ghost var before := out;
      if value[i] == '"' {
        out := out + "\\\"";
      } else if value[i] == '\\' {
        out := out + "\\\\";
      } else if value[i] == '\r' || value[i] == '\n' {
        out := out + " ";
      } else {
        out := out + [value[i]];
      }
      hide QuotedBody;
      assert out == before + QuotedChar(value[i]);
      assert value[..i + 1] == value[..i] + [value[i]];
      QuotedSnoc(value[..i], value[i]);
    }
    assert value[..|value|] == value;
    out := out + "\"";
  }

  lemma {:induction false} QuotedSnoc(v: string, c: char)
    ensures QuotedBody(v + [c]) == QuotedBody(v) + QuotedChar(c)
  {
    if v == [] {
      assert [c][1..] == [];
    } else {
      assert (v + [c])[1..] == v[1..] + [c];
      QuotedSnoc(v[1..], c);
    }
  }

  /** The text with a blank for each CR and LF. */
  function WithoutBreaks(value: string): string {
    seq(|value|, i requires 0 <= i < |value| => if value[i] == '\r' || value[i] == '\n' then ' ' else value[i])
  }

  /** Quoting a text is quoting it with blanks for its line breaks. */
  lemma {:induction false} BreaksAreBlanks(value: string)
    ensures Quoted(value) == Quoted(WithoutBreaks(value))
    ensures '\r' !in QuotedBody(value) && '\n' !in QuotedBody(value)
  {
    if value != [] {
      BreaksAreBlanks(value[1..]);
      SameBody(value[1..]);
      assert WithoutBreaks(value)[1..] == WithoutBreaks(value[1..]);
    }
  }

  lemma SameBody(value: string)
    requires Quoted(value) == Quoted(WithoutBreaks(value))
    ensures QuotedBody(value) == QuotedBody(WithoutBreaks(value))
  {
    var a, b := QuotedBody(value), QuotedBody(WithoutBreaks(value));
    assert Quoted(value)[1..|a| + 1] == a && Quoted(WithoutBreaks(value))[1..|b| + 1] == b;
  }

  /** `char::is_control`: the Unicode category Cc. */
  predicate IsControl(c: char) {
    c < ' ' || '\U{7F}' <= c <= '\U{9F}'
  }

  predicate NeedsLiteral(value: string) {
    exists i :: 0 <= i < |value| && !IsPlain(value[i])
  }

  /** Neither above 7-bit nor a control character other than tab. */
  predicate IsPlain(c: char) {
    !(c > '\U{7F}' || (IsControl(c) && c != '\t'))
  }

  function RenderString(value: string): string {
    if NeedsLiteral(value) then "{" + Decimal(|Encode(value)|) + "}\r\n" + value
    else Quoted(value)
  }

  function RenderNstring(value: Option<string>): string {
    match value
    case Some(v) => RenderString(v)
    case None => "NIL"
  }

  // ---------------------------------------------------------------- reading

  /** What a client sees: strings by their bytes, numbers, NIL and lists. */
  datatype Node = Nil | Str(bytes: Bytes) | Num(value: nat) | List(items: seq<Node>)

  datatype Read<T> = Bad | Got(value: T, rest: Bytes)

  predicate IsDigitByte(b: byte) {
    48 <= b <= 57
  }

  /** The rest of a run of digits, with the value read so far. */
  function ReadDigits(acc: nat, b: Bytes): (r: (nat, Bytes))
    ensures |r.1| <= |b|
    decreases |b|
  {
    if b != [] && IsDigitByte(b[0]) then ReadDigits(10 * acc + (b[0] as int - 48), b[1..]) else (acc, b)
  }

  /** The inside of a quoted string: 7-bit text, with `\` only before `"` or `\`. */
  function ReadQuoted(acc: Bytes, b: Bytes): (r: Read<Bytes>)
    ensures r.Got? ==> |r.rest| < |b|
    decreases |b|
  {
    if b == [] then Bad
    else if b[0] == 34 then Got(acc, b[1..])
    else if b[0] == 92 then
      if |b| >= 2 && b[1] in {34, 92} then ReadQuoted(acc + [b[1]], b[2..]) else Bad
    else if b[0] in {0, 10, 13} || b[0] >= 128 then Bad
    else ReadQuoted(acc + [b[0]], b[1..])
  }

  /** The inside of a literal after its `{`: a count, `}` CR LF, and that many bytes, none of them NUL. */
  function ReadLiteral(b: Bytes): (r: Read<Bytes>)
    ensures r.Got? ==> |r.rest| < |b|
  {
    if b == [] || !IsDigitByte(b[0]) then Bad
    else
      var (n, after) := ReadDigits(0, b);
      if |after| < 3 || after[..3] != [125, 13, 10] || |after| - 3 < n then Bad
      else if 0 in after[3..3 + n] then Bad
      else Got(after[3..3 + n], after[3 + n..])
  }

  function ReadNode(b: Bytes): (r: Read<Node>)
    ensures r.Got? ==> |r.rest| < |b|
    decreases |b|, 0
  {
    if b == [] then Bad
    else if b[0] == 40 then
      (match ReadItems(b[1..]) case Bad => Bad case Got(items, rest) => Got(List(items), rest))
    else if b[0] == 34 then
      (match ReadQuoted([], b[1..]) case Bad => Bad case Got(v, rest) => Got(Str(v), rest))
    else if b[0] == 123 then
      (match ReadLiteral(b[1..]) case Bad => Bad case Got(v, rest) => Got(Str(v), rest))
    else if IsDigitByte(b[0]) then
      var (n, rest) := ReadDigits(b[0] as int - 48, b[1..]); Got(Num(n), rest)
    else if |b| >= 3 && b[..3] == [78, 73, 76] then Got(Nil, b[3..])
    else Bad
  }

  /** List items up to the closing parenthesis. Items are separated by one
      blank; only a list directly after a list may go without. */
  function ReadItems(b: Bytes): (r: Read<seq<Node>>)
    ensures r.Got? ==> |r.rest| < |b|
    decreases |b|, 1
  {
    match ReadNode(b)
    case Bad => Bad
    case Got(node, rest) =>
      if rest == [] then Bad
      else if rest[0] == 41 then Got([node], rest[1..])
      else if rest[0] == 32 then ConsItem(node, ReadItems(rest[1..]))
      else if rest[0] == 40 && node.List? then ConsItem(node, ReadItems(rest))
      else Bad
  }

  function ConsItem(node: Node, r: Read<seq<Node>>): Read<seq<Node>> {
    if r.Bad? then Bad else Got([node] + r.value, r.rest)
  }

  // ---------------------------------------------------------------- printed text reads back

  predicate Delimited(rest: Bytes) {
    rest == [] || rest[0] in {32, 40, 41}
  }

  /** No string in it holds NUL, which no IMAP string may. */
  predicate Clean(node: Node) {
    match node
    case Str(bytes) => 0 !in bytes
    case List(items) => forall i :: 0 <= i < |items| ==> Clean(items[i])
    case _ => true
  }

  predicate AllClean(nodes: seq<Node>) {
    forall i :: 0 <= i < |nodes| ==> Clean(nodes[i])
  }

  /** What a strict reader makes of a printed node: the node, or a refusal if it is not clean. */
  function Sees(node: Node, rest: Bytes): Read<Node> {
    if Clean(node) then Got(node, rest) else Bad
  }

  /** Whatever follows, the reader takes exactly this text and gets this node, if it is clean. */
  ghost predicate ReadsAs(text: string, node: Node) {
    forall rest :: Delimited(rest) ==> ReadNode(Encode(text) + rest) == Sees(node, rest)
  }

  lemma {:induction false} QuotedReads(acc: Bytes, v: string, rest: Bytes)
    requires !NeedsLiteral(v)
    ensures ReadQuoted(acc, Encode(QuotedBody(v)) + [34] + rest) == Got(acc + Encode(v), rest)
    decreases |v|
  {
    if v == [] {
      assert Encode(QuotedBody(v)) + [34] + rest == [34] + rest;
      assert acc + Encode(v) == acc;
    } else {
      var c, tail := v[0], v[1..];
      PlainTail(v);
      var b := [c as int as byte];
      QuotedHead(v);
      hide *;
      var more := Encode(QuotedBody(tail)) + [34] + rest;
      Regroup3(Encode(QuotedChar(c)), Encode(QuotedBody(tail)), [34], rest);
      QuotedStep(acc, c, more);
      QuotedReads(acc + b, tail, rest);
      assert acc + b + Encode(tail) == acc + (b + Encode(tail));
    }
  }

  lemma QuotedHead(v: string)
    requires v != [] && IsPlain(v[0])
    ensures Encode(v) == [v[0] as int as byte] + Encode(v[1..])
    ensures Encode(QuotedBody(v)) == Encode(QuotedChar(v[0])) + Encode(QuotedBody(v[1..]))
  {
    PlainByte(v[0]);
    EncodeConcat(QuotedChar(v[0]), QuotedBody(v[1..]));
  }

  lemma PlainByte(c: char)
    requires IsPlain(c)
    ensures EncodeChar(c) == [c as int as byte]
  {}

  lemma Regroup3(a: Bytes, b: Bytes, c: Bytes, d: Bytes)
    ensures a + b + c + d == a + (b + c + d)
  {}

  lemma PlainTail(v: string)
    requires v != [] && !NeedsLiteral(v)
    ensures IsPlain(v[0]) && !NeedsLiteral(v[1..])
  {
    var tail := v[1..];
    forall i | 0 <= i < |tail| ensures IsPlain(tail[i]) {
      assert tail[i] == v[i + 1];
    }
  }

  lemma QuotedStep(acc: Bytes, c: char, more: Bytes)
    requires IsPlain(c)
    ensures ReadQuoted(acc, Encode(QuotedChar(c)) + more) == ReadQuoted(acc + [c as int as byte], more)
  {
    AsciiPair(c);
    hide Encode, QuotedChar;
    var b := Encode(QuotedChar(c)) + more;
    if c == '"' || c == '\\' {
      assert b[2..] == more;
    } else {
      assert b[1..] == more;
    }
  }

  lemma AsciiPair(c: char)
    requires IsPlain(c)
    ensures Encode(QuotedChar(c)) ==
            if c == '"' || c == '\\' then [92, c as int as byte] else [c as int as byte]
  {
    EncodeAscii(QuotedChar(c));
  }

  lemma {:induction false} DigitsRead(n: nat, tail: Bytes)
    ensures ReadDigits(0, Encode(Decimal(n)) + tail) == ReadDigits(n, tail)
    decreases n
  {
    if n < 10 {
      DigitStep(0, n, tail);
    } else {
      var d := Encode([DigitChar(n % 10)]);
      EncodeConcat(Decimal(n / 10), [DigitChar(n % 10)]);
      hide Encode, ReadDigits;
      assert Encode(Decimal(n / 10)) + d + tail == Encode(Decimal(n / 10)) + (d + tail);
      DigitsRead(n / 10, d + tail);
      DigitStep(n / 10, n % 10, tail);
    }
  }

  lemma DigitStep(acc: nat, d: nat, tail: Bytes)
    requires d < 10
    ensures ReadDigits(acc, Encode([DigitChar(d)]) + tail) == ReadDigits(10 * acc + d, tail)
  {
    EncodeAscii([DigitChar(d)]);
    var b := Encode([DigitChar(d)]);
    assert b == [(48 + d) as byte];
    assert (b + tail)[1..] == tail;
  }

  lemma {:induction false} DecimalStartsWithDigit(n: nat)
    ensures Encode(Decimal(n)) != [] && IsDigitByte(Encode(Decimal(n))[0])
  {
    var s := Decimal(n);
    assert IsDigit(s[0]);
    EncodeAscii(s[..1]);
    assert s == s[..1] + s[1..];
    EncodeConcat(s[..1], s[1..]);
  }

  lemma NumberReads(n: nat)
    ensures ReadsAs(Decimal(n), Num(n))
  {
    forall rest | Delimited(rest) ensures ReadNode(Encode(Decimal(n)) + rest) == Sees(Num(n), rest) {
      DigitsRead(n, rest);
      DecimalStartsWithDigit(n);
    }
  }

  lemma NilReads()
    ensures ReadsAs("NIL", Nil)
  {
    EncodeAscii("NIL");
    assert Encode("NIL") == [78, 73, 76];
    forall rest | Delimited(rest) ensures ReadNode(Encode("NIL") + rest) == Sees(Nil, rest) {
      assert (Encode("NIL") + rest)[..3] == Encode("NIL") && (Encode("NIL") + rest)[3..] == rest;
    }
  }

  lemma Enclosed(open: string, text: string, close: string)
    ensures Encode(open + text + close) == Encode(open) + Encode(text) + Encode(close)
  {
    EncodeConcat(open + text, close);
    EncodeConcat(open, text);
  }

  lemma Punctuation()
    ensures Encode("{") == [123] && Encode("}\r\n") == [125, 13, 10]
    ensures Encode("\"") == [34] && Encode("(") == [40] && Encode(")") == [41]
    ensures Encode(" ") == [32] && Encode("") == []
  {
    EncodeAscii("}\r\n");
  }

  lemma LiteralReads(v: string, rest: Bytes)
    ensures ReadNode(Encode("{" + Decimal(|Encode(v)|) + "}\r\n" + v) + rest) == Sees(Str(Encode(v)), rest)
  {
    hide Encode, Decimal;
    var bytes := Encode(v);
    var count := Decimal(|bytes|);
    Punctuation();
    Enclosed("{", count, "}\r\n");
    EncodeConcat("{" + count + "}\r\n", v);
    DigitsRead(|bytes|, [125, 13, 10] + bytes + rest);
    DecimalStartsWithDigit(|bytes|);
    LiteralBytesRead(Encode(count), bytes, rest);
    hide ReadNode;
    Regroup([123], Encode(count), [125, 13, 10], bytes, rest);
  }

  lemma Regroup(a: Bytes, b: Bytes, c: Bytes, d: Bytes, e: Bytes)
    ensures a + b + c + d + e == a + (b + (c + d + e))
  {}

  lemma LiteralBytesRead(count: Bytes, bytes: Bytes, rest: Bytes)
    requires count != [] && IsDigitByte(count[0])
    requires ReadDigits(0, count + ([125, 13, 10] + bytes + rest)) == ReadDigits(|bytes|, [125, 13, 10] + bytes + rest)
    ensures ReadNode([123] + (count + ([125, 13, 10] + bytes + rest))) == Sees(Str(bytes), rest)
  {
    var after := [125, 13, 10] + bytes + rest;
    assert ReadDigits(|bytes|, after) == (|bytes|, after);
    hide ReadDigits;
    LiteralSlices(bytes, rest);
    assert ReadLiteral(count + after) == if 0 in bytes then Bad else Got(bytes, rest);
    assert ([123] + (count + after))[1..] == count + after;
  }

  lemma LiteralSlices(bytes: Bytes, rest: Bytes)
    ensures var after := [125, 13, 10] + bytes + rest;
            after[..3] == [125, 13, 10] && after[3..3 + |bytes|] == bytes && after[3 + |bytes|..] == rest
  {}

  lemma QuotedTextReads(v: string, rest: Bytes)
    requires !NeedsLiteral(v)
    ensures ReadNode(Encode(Quoted(v)) + rest) == Sees(Str(Encode(v)), rest)
  {
    PlainIsClean(v);
    hide Encode, QuotedBody, NeedsLiteral;
    Punctuation();
    Enclosed("\"", QuotedBody(v), "\"");
    var inner := Encode(QuotedBody(v)) + [34] + rest;
    assert Encode(Quoted(v)) + rest == [34] + inner;
    assert ([34] + inner)[1..] == inner;
    QuotedReads([], v, rest);
    assert [] + Encode(v) == Encode(v);
  }

  lemma {:induction false} PlainIsClean(v: string)
    requires !NeedsLiteral(v)
    ensures 0 !in Encode(v)
  {
    if v != [] {
      PlainTail(v);
      PlainIsClean(v[1..]);
      PlainByte(v[0]);
    }
  }

  /** A byte is NUL only for the character U+0000. */
  lemma {:induction false} NulBytes(v: string)
    ensures 0 in Encode(v) <==> '\0' in v
  {
    if v != [] {
      NulBytes(v[1..]);
      assert 0 in EncodeChar(v[0]) <==> v[0] == '\0';
      assert v == [v[0]] + v[1..];
    }
  }

  /** Every string leaf reads back to its exact value, whichever form it takes, unless it
      holds NUL; then it is refused. */
  lemma StringReads(v: string)
    ensures ReadsAs(RenderString(v), Str(Encode(v)))
  {
    hide ReadNode, NeedsLiteral, Quoted, Encode;
    forall rest | Delimited(rest)
      ensures ReadNode(Encode(RenderString(v)) + rest) == Sees(Str(Encode(v)), rest)
    {
      if NeedsLiteral(v) {
        LiteralReads(v, rest);
      } else {
        QuotedTextReads(v, rest);
      }
    }
  }

  lemma NstringReads(v: Option<string>)
    ensures ReadsAs(RenderNstring(v), NstringNode(v))
  {
    NilReads();
    if v.Some? {
      StringReads(v.value);
    }
  }

  function NstringNode(v: Option<string>): Node {
    if v.Some? then Str(Encode(v.value)) else Nil
  }

  // ---------------------------------------------------------------- lists

  /** One printed list item: its text, what it reads as, and whether it
      follows the previous item without a blank. */
  datatype Piece = Piece(glued: bool, text: string, node: Node)

  /** The items of a list after its first one. */
  function TailText(ps: seq<Piece>): string {
    if ps == [] then []
    else (if ps[0].glued then [] else " ") + ps[0].text + TailText(ps[1..])
  }

  function ListText(ps: seq<Piece>): string
    requires ps != []
  {
    "(" + ps[0].text + TailText(ps[1..]) + ")"
  }

  function Nodes(ps: seq<Piece>): seq<Node> {
    if ps == [] then [] else [ps[0].node] + Nodes(ps[1..])
  }

  /** Each piece reads as its node, and only a list is glued to a list. */
  ghost predicate PiecesOk(ps: seq<Piece>) {
    ps != [] ==>
      && ReadsAs(ps[0].text, ps[0].node)
      && (ps[0].node.List? ==> Encode(ps[0].text) != [] && Encode(ps[0].text)[0] == 40)
      && (|ps| > 1 && ps[1].glued ==> ps[0].node.List? && ps[1].node.List?)
      && PiecesOk(ps[1..])
  }

  /** One item and what follows it in a list. */
  lemma ItemStep(text: string, node: Node, after: Bytes)
    requires ReadsAs(text, node) && Delimited(after) && after != []
    ensures ReadItems(Encode(text) + after) ==
            if !Clean(node) then Bad
            else if after[0] == 41 then Got([node], after[1..])
            else if after[0] == 32 then ConsItem(node, ReadItems(after[1..]))
            else if node.List? then ConsItem(node, ReadItems(after))
            else Bad
  {
    hide Encode;
    assert ReadNode(Encode(text) + after) == Sees(node, after);
  }

  lemma TailBytes(ps: seq<Piece>)
    requires ps != []
    ensures Encode(TailText(ps)) ==
            (if ps[0].glued then [] else [32]) + Encode(ps[0].text) + Encode(TailText(ps[1..]))
  {
    Punctuation();
    hide Encode;
    Enclosed(if ps[0].glued then "" else " ", ps[0].text, TailText(ps[1..]));
  }

  lemma {:induction false} ItemsRead(ps: seq<Piece>, rest: Bytes)
    requires ps != [] && PiecesOk(ps)
    ensures ReadItems(Encode(ps[0].text) + (Encode(TailText(ps[1..])) + [41] + rest))
            == if AllClean(Nodes(ps)) then Got(Nodes(ps), rest) else Bad
    decreases |ps|
  {
    Punctuation();
    hide Encode, ReadItems, ReadNode, ReadsAs, Clean, AllClean;
    var p, more := ps[0], ps[1..];
    AllCleanCons(p.node, Nodes(more));
    var after := Encode(TailText(more)) + [41] + rest;
    if more == [] {
      assert TailText(more) == "";
      assert after == [41] + rest && after[1..] == rest;
      ItemStep(p.text, p.node, after);
      assert Nodes(ps) == [p.node] + Nodes(more) == [p.node];
      NoneUnclean();
    } else {
      var q := more[0];
      TailBytes(more);
      ItemsRead(more, rest);
      var next := Encode(q.text) + (Encode(TailText(more[1..])) + [41] + rest);
      if q.glued {
        assert after == next && after[0] == 40;
      } else {
        assert after == [32] + next && after[1..] == next;
      }
      ItemStep(p.text, p.node, after);
    }
  }

  lemma AllCleanCons(node: Node, nodes: seq<Node>)
    ensures AllClean([node] + nodes) <==> Clean(node) && AllClean(nodes)
  {
    var all := [node] + nodes;
    assert all[0] == node && forall i :: 0 <= i < |nodes| ==> nodes[i] == all[i + 1];
  }

  lemma NoneUnclean()
    ensures AllClean([])
  {}

  lemma ListBytesRead(inner: Bytes, nodes: seq<Node>, rest: Bytes)
    requires ReadItems(inner) == if AllClean(nodes) then Got(nodes, rest) else Bad
    ensures ReadNode([40] + inner) == Sees(List(nodes), rest)
  {
    assert ([40] + inner)[1..] == inner;
  }

  /** A parenthesised list of readable pieces reads as the list of their nodes, if they are clean. */
  lemma ListReads(ps: seq<Piece>)
    requires ps != [] && PiecesOk(ps)
    ensures ReadsAs(ListText(ps), List(Nodes(ps)))
    ensures Encode(ListText(ps)) != [] && Encode(ListText(ps))[0] == 40
  {
    Punctuation();
    hide Encode, ReadItems, ReadNode, Nodes, TailText, PiecesOk, Sees;
    var text, tail := ps[0].text, TailText(ps[1..]);
    Enclosed("(", text + tail, ")");
    EncodeConcat(text, tail);
    assert "(" + (text + tail) + ")" == ListText(ps);
    forall rest | Delimited(rest)
      ensures ReadNode(Encode(ListText(ps)) + rest) == Sees(List(Nodes(ps)), rest)
    {
      var inner := Encode(text) + (Encode(tail) + [41] + rest);
      assert Encode(ListText(ps)) + rest == [40] + inner;
      ItemsRead(ps, rest);
      ListBytesRead(inner, Nodes(ps), rest);
    }
  }

  // ---------------------------------------------------------------- lists under construction

  /** A text that reads as the node, if it is clean, lists starting with their parenthesis. */
  ghost predicate Readable(text: string, node: Node) {
    ReadsAs(text, node) && (node.List? ==> Encode(text) != [] && Encode(text)[0] == 40)
  }

  /** An unclosed list text holding exactly these items. */
  ghost predicate Opens(text: string, nodes: seq<Node>) {
    exists ps :: Builds(ps, text, nodes)
  }

  ghost predicate Builds(ps: seq<Piece>, text: string, nodes: seq<Node>) {
    ps != [] && PiecesOk(ps) && Nodes(ps) == nodes && text == "(" + ps[0].text + TailText(ps[1..])
  }

  lemma OpenList(text: string, node: Node)
    requires Readable(text, node)
    ensures Opens("(" + text, [node])
  {
    hide ReadsAs;
    var ps := [Piece(false, text, node)];
    assert ps[1..] == [] && TailText([]) == [];
    assert "(" + text + [] == "(" + text;
    assert Nodes(ps) == [node] + Nodes([]) == [node];
    assert PiecesOk(ps);
    assert Builds(ps, "(" + text, [node]);
  }

  lemma {:induction false} PiecesSnoc(ps: seq<Piece>, q: Piece)
    requires ps != [] && PiecesOk(ps) && Readable(q.text, q.node)
    requires q.glued ==> ps[|ps| - 1].node.List? && q.node.List?
    ensures PiecesOk(ps + [q])
    ensures Nodes(ps + [q]) == Nodes(ps) + [q.node]
    ensures |Nodes(ps)| == |ps| && Nodes(ps)[|ps| - 1] == ps[|ps| - 1].node
    decreases |ps|
  {
    hide ReadsAs;
    assert (ps + [q])[0] == ps[0];
    assert (ps + [q])[1..] == ps[1..] + [q];
    if |ps| == 1 {
      assert ps[1..] + [q] == [q];
      assert [q][1..] == [];
    } else {
      assert (ps + [q])[1] == ps[1];
      PiecesSnoc(ps[1..], q);
    }
  }

  lemma {:induction false} TailSnoc(ps: seq<Piece>, q: Piece)
    ensures TailText(ps + [q]) == TailText(ps) + (if q.glued then [] else " ") + q.text
  {
    if ps == [] {
      assert [q][1..] == [];
    } else {
      assert (ps + [q])[1..] == ps[1..] + [q];
      TailSnoc(ps[1..], q);
    }
  }

  lemma Extend(text: string, nodes: seq<Node>, q: Piece)
    requires Opens(text, nodes) && Readable(q.text, q.node)
    requires q.glued ==> nodes != [] && nodes[|nodes| - 1].List? && q.node.List?
    ensures Opens(text + (if q.glued then "" else " ") + q.text, nodes + [q.node])
  {
    hide PiecesOk, ReadsAs, TailText, Nodes;
    var ps :| Builds(ps, text, nodes);
    NodesLength(ps);
    PiecesSnoc(ps, q);
    TailSnoc(ps[1..], q);
    assert (ps + [q])[1..] == ps[1..] + [q];
    assert Builds(ps + [q], text + (if q.glued then "" else " ") + q.text, nodes + [q.node]);
  }

  lemma {:induction false} NodesLength(ps: seq<Piece>)
    ensures |Nodes(ps)| == |ps|
    ensures ps != [] ==> Nodes(ps)[|ps| - 1] == ps[|ps| - 1].node
  {
    if ps != [] {
      NodesLength(ps[1..]);
    }
  }

  /** The next item after a blank. */
  lemma AddItem(text: string, nodes: seq<Node>, item: string, node: Node) returns (t: string, n: seq<Node>)
    requires Opens(text, nodes) && Readable(item, node)
    ensures t == text + " " + item && n == nodes + [node] && Opens(t, n)
  {
    Extend(text, nodes, Piece(false, item, node));
    t, n := text + " " + item, nodes + [node];
  }

  /** The next list directly after a list. */
  lemma AddGlued(text: string, nodes: seq<Node>, item: string, node: Node)
    requires Opens(text, nodes) && Readable(item, node)
    requires nodes != [] && nodes[|nodes| - 1].List? && node.List?
    ensures Opens(text + item, nodes + [node])
  {
    Extend(text, nodes, Piece(true, item, node));
    assert text + "" + item == text + item;
  }

  lemma CloseList(text: string, nodes: seq<Node>)
    requires Opens(text, nodes)
    ensures Readable(text + ")", List(nodes))
  {
    hide PiecesOk, ReadsAs, TailText, Nodes;
    var ps :| Builds(ps, text, nodes);
    ListReads(ps);
    assert ListText(ps) == text + ")";
  }

  lemma LeavesReadable(s: string, v: Option<string>, n: nat)
    ensures Readable(RenderString(s), Str(Encode(s)))
    ensures Readable(RenderNstring(v), NstringNode(v))
    ensures Readable(Decimal(n), Num(n))
    ensures Readable("NIL", Nil)
  {
    StringReads(s);
    NstringReads(v);
    NumberReads(n);
    NilReads();
  }
}
