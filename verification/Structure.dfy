/** The recursive BODYSTRUCTURE printer (section 7.4.2 of RFC 3501). */
module Structure {
  import opened Common
  import opened Text
  import opened Utf8
  import opened ImapText
  import Multipart

  const MAX_DEPTH: nat := 16

  datatype Header = Header(name: string, value: string)
  datatype Address = Address(name: string, mailbox: string, host: string)
  datatype ContentType = ContentType(mimeType: string, subtype: string, params: seq<(string, string)>)

  /** The header parsers. Nothing below depends on what they return. */
  datatype Parsers = Parsers(
    headers: Bytes -> seq<Header>,
    addresses: string -> seq<Address>,
    contentType: Option<string> -> ContentType)

  const OCTET_STREAM := ContentType("application", "octet-stream", [])

  /** The first header with the name, letter case aside. */
  function Get(headers: seq<Header>, name: string): Option<string> {
    if headers == [] then None
    else if EqIgnoreCase(headers[0].name, name) then Some(headers[0].value)
    else Get(headers[1..], name)
  }

  function Param(params: seq<(string, string)>, name: string): Option<string> {
    if params == [] then None
    else if EqIgnoreCase(params[0].0, name) then Some(params[0].1)
    else Param(params[1..], name)
  }

  /** The first position at or after `i` where the needle stands. */
  function Find(s: Bytes, needle: Bytes, i: nat): Option<nat>
    ensures Find(s, needle, i).Some? ==> Find(s, needle, i).value + |needle| <= |s|
    decreases |s| - i
  {
    if i + |needle| > |s| then None
    else if s[i..i + |needle|] == needle then Some(i)
    else if i == |s| then None
    else Find(s, needle, i + 1)
  }

  function BodyOf(message: Bytes): Bytes {
    var crlf := Find(message, [13, 10, 13, 10], 0);
    if crlf.Some? then message[crlf.value + 4..]
    else
      var lf := Find(message, [10, 10], 0);
      if lf.Some? then message[lf.value + 2..] else []
  }

  function CountLf(body: Bytes): nat {
    if body == [] then 0 else (if body[0] == 10 then 1 else 0) + CountLf(body[1..])
  }

  function LineCount(body: Bytes): nat {
    if body == [] then 0
    else if body[|body| - 1] == 10 then CountLf(body) else CountLf(body) + 1
  }

  function Encoding(headers: seq<Header>): string {
    match Get(headers, "content-transfer-encoding")
    case None => "7BIT"
    case Some(value) =>
      var e := Upper(Trim(Split(value, ';')[0]));
      if e == [] then "7BIT" else e
  }

  function NonEmpty(s: string): Option<string> {
    if s == [] then None else Some(s)
  }

  predicate IsMultipart(c: ContentType) { EqIgnoreCase(c.mimeType, "multipart") }
  predicate IsMessage(c: ContentType) {
    EqIgnoreCase(c.mimeType, "message") && EqIgnoreCase(c.subtype, "rfc822")
  }
  predicate IsText(c: ContentType) { EqIgnoreCase(c.mimeType, "text") }

  /** The parts of a multipart entity, when it has a boundary and any parts. */
  function PartsOf(body: Bytes, content: ContentType): seq<Bytes> {
    match Param(content.params, "boundary")
    case None => []
    case Some(b) => Multipart.Contents(body, Multipart.PartSlices(body, Encode(b)))
  }

  function Take<T>(s: seq<T>, n: nat): seq<T> {
    if |s| <= n then s else s[..n]
  }

  // ---------------------------------------------------------------- the printed text

  function AddressText(a: Address): string {
    "(" + RenderNstring(NonEmpty(a.name)) + " " + "NIL" + " " + RenderNstring(Some(a.mailbox))
    + " " + RenderNstring(NonEmpty(a.host)) + ")"
  }

  /** The opened list of the addresses, each directly after the last. */
  function AddressItems(addresses: seq<Address>): string {
    if addresses == [] then "("
    else AddressItems(addresses[..|addresses| - 1]) + AddressText(addresses[|addresses| - 1])
  }

  function AddressListText(p: Parsers, value: Option<string>): string {
    if value.None? || p.addresses(value.value) == [] then "NIL"
    else AddressItems(p.addresses(value.value)) + ")"
  }

  function Or<T>(a: Option<T>, b: Option<T>): Option<T> {
    if a.Some? then a else b
  }

  function EnvelopeText(p: Parsers, h: seq<Header>): string {
    var from := Get(h, "from");
    "(" + RenderNstring(Get(h, "date")) + " " + RenderNstring(Get(h, "subject"))
    + " " + AddressListText(p, from) + " " + AddressListText(p, Or(Get(h, "sender"), from))
    + " " + AddressListText(p, Or(Get(h, "reply-to"), from)) + " " + AddressListText(p, Get(h, "to"))
    + " " + AddressListText(p, Get(h, "cc")) + " " + AddressListText(p, Get(h, "bcc"))
    + " " + RenderNstring(Get(h, "in-reply-to")) + " " + RenderNstring(Get(h, "message-id")) + ")"
  }

  /** The opened list of parameter names and values. */
  function ParamItems(params: seq<(string, string)>): string {
    if params == [] then "("
    else
      ParamItems(params[..|params| - 1]) + (if |params| == 1 then "" else " ")
      + RenderString(Upper(params[|params| - 1].0)) + " " + RenderString(params[|params| - 1].1)
  }

  function ParamsText(params: seq<(string, string)>): string {
    if params == [] then "NIL" else ParamItems(params) + ")"
  }

  function BasicText(c: ContentType, h: seq<Header>, size: nat): string {
    "(" + RenderString(Upper(c.mimeType)) + " " + RenderString(Upper(c.subtype)) + " " + ParamsText(c.params)
    + " " + RenderNstring(Get(h, "content-id")) + " " + RenderNstring(Get(h, "content-description"))
    + " " + RenderString(Encoding(h)) + " " + Decimal(size)
  }

  /** The entity's content type as the printer treats it at this depth. */
  function EffectiveType(p: Parsers, message: Bytes, depth: nat): ContentType {
    var c := p.contentType(Get(p.headers(message), "content-type"));
    if depth >= MAX_DEPTH then OCTET_STREAM
    else if IsMultipart(c) && PartsOf(BodyOf(message), c) == [] then OCTET_STREAM
    else c
  }

  function PartText(p: Parsers, message: Bytes, depth: nat): string
    requires depth <= MAX_DEPTH
    decreases MAX_DEPTH - depth, 0, 0
  {
    var body, h := BodyOf(message), p.headers(message);
    var c := EffectiveType(p, message, depth);
    if IsMultipart(c) then
      PartItems(p, Take(PartsOf(body, c), Multipart.MAX_PARTS), depth + 1)
      + " " + RenderString(Upper(c.subtype)) + ")"
    else
      var base := BasicText(c, h, |body|);
      if IsText(c) then base + " " + Decimal(LineCount(body)) + ")"
      else if IsMessage(c) then
        base + " " + EnvelopeText(p, p.headers(body)) + " " + PartText(p, body, depth + 1)
        + " " + Decimal(LineCount(body)) + ")"
      else base + ")"
  }

  /** The opened list of the parts, each directly after the last. */
  function PartItems(p: Parsers, parts: seq<Bytes>, depth: nat): string
    requires depth <= MAX_DEPTH
    decreases MAX_DEPTH - depth, 1, |parts|
  {
    if parts == [] then "("
    else PartItems(p, parts[..|parts| - 1], depth) + PartText(p, parts[|parts| - 1], depth)
  }

  // ---------------------------------------------------------------- what a client should see

  function StrNode(s: string): Node {
    Str(Encode(s))
  }

  function AddressNode(a: Address): Node {
    List([NstringNode(NonEmpty(a.name)), Nil, StrNode(a.mailbox), NstringNode(NonEmpty(a.host))])
  }

  function AddressListNode(p: Parsers, value: Option<string>): Node {
    if value.None? || p.addresses(value.value) == [] then Nil
    else List(AddressNodes(p.addresses(value.value)))
  }

  function AddressNodes(addresses: seq<Address>): seq<Node> {
    if addresses == [] then []
    else AddressNodes(addresses[..|addresses| - 1]) + [AddressNode(addresses[|addresses| - 1])]
  }

  function EnvelopeNode(p: Parsers, h: seq<Header>): Node {
    var from := Get(h, "from");
    List([NstringNode(Get(h, "date")), NstringNode(Get(h, "subject")),
          AddressListNode(p, from), AddressListNode(p, Or(Get(h, "sender"), from)),
          AddressListNode(p, Or(Get(h, "reply-to"), from)), AddressListNode(p, Get(h, "to")),
          AddressListNode(p, Get(h, "cc")), AddressListNode(p, Get(h, "bcc")),
          NstringNode(Get(h, "in-reply-to")), NstringNode(Get(h, "message-id"))])
  }

  function ParamNodes(params: seq<(string, string)>): seq<Node> {
    if params == [] then []
    else
      var (key, value) := params[|params| - 1];
      ParamNodes(params[..|params| - 1]) + [StrNode(Upper(key))] + [StrNode(value)]
  }

  function ParamsNode(params: seq<(string, string)>): Node {
    if params == [] then Nil else List(ParamNodes(params))
  }

  function BasicNodes(c: ContentType, h: seq<Header>, size: nat): seq<Node> {
    [StrNode(Upper(c.mimeType)), StrNode(Upper(c.subtype)), ParamsNode(c.params),
     NstringNode(Get(h, "content-id")), NstringNode(Get(h, "content-description")),
     StrNode(Encoding(h)), Num(size)]
  }

  function PartNode(p: Parsers, message: Bytes, depth: nat): (n: Node)
    requires depth <= MAX_DEPTH
    ensures n.List?
    decreases MAX_DEPTH - depth, 0, 0
  {
    var body, h := BodyOf(message), p.headers(message);
    var c := EffectiveType(p, message, depth);
    if IsMultipart(c) then
      List(PartNodes(p, Take(PartsOf(body, c), Multipart.MAX_PARTS), depth + 1) + [StrNode(Upper(c.subtype))])
    else
      var base := BasicNodes(c, h, |body|);
      if IsText(c) then List(base + [Num(LineCount(body))])
      else if IsMessage(c) then
        List(base + [EnvelopeNode(p, p.headers(body)), PartNode(p, body, depth + 1), Num(LineCount(body))])
      else List(base)
  }

  function PartNodes(p: Parsers, parts: seq<Bytes>, depth: nat): (nodes: seq<Node>)
    requires depth <= MAX_DEPTH
    ensures |nodes| == |parts| && forall i :: 0 <= i < |nodes| ==> nodes[i].List?
    decreases MAX_DEPTH - depth, 1, |parts|
  {
    if parts == [] then []
    else PartNodes(p, parts[..|parts| - 1], depth) + [PartNode(p, parts[|parts| - 1], depth)]
  }

  // ---------------------------------------------------------------- the text reads as the node

  lemma AddressReads(a: Address)
    ensures Readable(AddressText(a), AddressNode(a))
  {
    hide RenderNstring, Encode, Readable, Opens;
    var name, mailbox, host := NonEmpty(a.name), Some(a.mailbox), NonEmpty(a.host);
    LeavesReadable("", name, 0);
    LeavesReadable("", mailbox, 0);
    LeavesReadable("", host, 0);
    OpenList(RenderNstring(name), NstringNode(name));
    var t, n := "(" + RenderNstring(name), [NstringNode(name)];
    t, n := AddItem(t, n, "NIL", Nil);
    t, n := AddItem(t, n, RenderNstring(mailbox), NstringNode(mailbox));
    t, n := AddItem(t, n, RenderNstring(host), NstringNode(host));
    CloseList(t, n);
    assert List(n) == AddressNode(a);
  }

  lemma {:induction false} AddressesRead(addresses: seq<Address>)
    requires addresses != []
    ensures Opens(AddressItems(addresses), AddressNodes(addresses))
    ensures AddressNodes(addresses) != [] && AddressNodes(addresses)[|AddressNodes(addresses)| - 1].List?
  {
    hide Opens, Readable, AddressText, AddressNode;
    var front, last := addresses[..|addresses| - 1], addresses[|addresses| - 1];
    AddressReads(last);
    assert AddressNode(last).List? by { AddressIsList(last); }
    if front == [] {
      OpenList(AddressText(last), AddressNode(last));
      assert AddressNodes(addresses) == [] + [AddressNode(last)] == [AddressNode(last)];
    } else {
      AddressesRead(front);
      AddGlued(AddressItems(front), AddressNodes(front), AddressText(last), AddressNode(last));
    }
  }

  lemma AddressIsList(a: Address)
    ensures AddressNode(a).List?
  {}

  lemma AddressListReads(p: Parsers, value: Option<string>)
    ensures Readable(AddressListText(p, value), AddressListNode(p, value))
  {
    hide Opens, Readable, AddressItems, AddressNodes;
    LeavesReadable("", None, 0);
    if value.Some? && p.addresses(value.value) != [] {
      AddressesRead(p.addresses(value.value));
      CloseList(AddressItems(p.addresses(value.value)), AddressNodes(p.addresses(value.value)));
    }
  }

  /** One more nullable string after a blank. */
  lemma AddNstring(text: string, nodes: seq<Node>, v: Option<string>) returns (t: string, n: seq<Node>)
    requires Opens(text, nodes)
    ensures t == text + " " + RenderNstring(v) && n == nodes + [NstringNode(v)] && Opens(t, n)
  {
    hide Opens, Readable;
    LeavesReadable("", v, 0);
    t, n := AddItem(text, nodes, RenderNstring(v), NstringNode(v));
  }

  lemma AddString(text: string, nodes: seq<Node>, s: string) returns (t: string, n: seq<Node>)
    requires Opens(text, nodes)
    ensures t == text + " " + RenderString(s) && n == nodes + [StrNode(s)] && Opens(t, n)
  {
    hide Opens, Readable;
    LeavesReadable(s, None, 0);
    t, n := AddItem(text, nodes, RenderString(s), StrNode(s));
  }

  lemma AddNumber(text: string, nodes: seq<Node>, v: nat) returns (t: string, n: seq<Node>)
    requires Opens(text, nodes)
    ensures t == text + " " + Decimal(v) && n == nodes + [Num(v)] && Opens(t, n)
  {
    hide Opens, Readable;
    LeavesReadable("", None, v);
    t, n := AddItem(text, nodes, Decimal(v), Num(v));
  }

  lemma AddAddresses(p: Parsers, text: string, nodes: seq<Node>, v: Option<string>)
      returns (t: string, n: seq<Node>)
    requires Opens(text, nodes)
    ensures t == text + " " + AddressListText(p, v) && n == nodes + [AddressListNode(p, v)] && Opens(t, n)
  {
    hide Opens, Readable;
    AddressListReads(p, v);
    t, n := AddItem(text, nodes, AddressListText(p, v), AddressListNode(p, v));
  }

  lemma EnvelopeReads(p: Parsers, h: seq<Header>)
    ensures Readable(EnvelopeText(p, h), EnvelopeNode(p, h))
  {
    hide Opens, Readable, RenderNstring, NstringNode, AddressListText, AddressListNode, Get;
    var from := Get(h, "from");
    LeavesReadable("", Get(h, "date"), 0);
    OpenList(RenderNstring(Get(h, "date")), NstringNode(Get(h, "date")));
    var t, n := AddNstring("(" + RenderNstring(Get(h, "date")), [NstringNode(Get(h, "date"))], Get(h, "subject"));
    t, n := AddAddresses(p, t, n, from);
    t, n := AddAddresses(p, t, n, Or(Get(h, "sender"), from));
    t, n := AddAddresses(p, t, n, Or(Get(h, "reply-to"), from));
    t, n := AddAddresses(p, t, n, Get(h, "to"));
    t, n := AddAddresses(p, t, n, Get(h, "cc"));
    t, n := AddAddresses(p, t, n, Get(h, "bcc"));
    t, n := AddNstring(t, n, Get(h, "in-reply-to"));
    t, n := AddNstring(t, n, Get(h, "message-id"));
    CloseList(t, n);
    TenItems(n[0], n[1], n[2], n[3], n[4], n[5], n[6], n[7], n[8], n[9]);
  }

  lemma TenItems<T>(a: T, b: T, c: T, d: T, e: T, f: T, g: T, h: T, i: T, j: T)
    ensures [a] + [b] + [c] + [d] + [e] + [f] + [g] + [h] + [i] + [j] == [a, b, c, d, e, f, g, h, i, j]
  {}

  lemma {:induction false} ParamItemsRead(params: seq<(string, string)>)
    requires params != []
    ensures Opens(ParamItems(params), ParamNodes(params))
  {
    hide Opens, Readable, RenderString, StrNode;
    var front, last := params[..|params| - 1], params[|params| - 1];
    var t, n;
    if front == [] {
      LeavesReadable(Upper(last.0), None, 0);
      assert StrNode(Upper(last.0)) == Str(Encode(Upper(last.0))) by { StrIs(Upper(last.0)); }
      OpenList(RenderString(Upper(last.0)), StrNode(Upper(last.0)));
      t, n := "(" + RenderString(Upper(last.0)), [StrNode(Upper(last.0))];
      assert "(" + "" == "(" && [] + [StrNode(Upper(last.0))] == [StrNode(Upper(last.0))];
    } else {
      ParamItemsRead(front);
      t, n := AddString(ParamItems(front), ParamNodes(front), Upper(last.0));
    }
    t, n := AddString(t, n, last.1);
    assert t == ParamItems(params);
    assert n == ParamNodes(params);
  }

  lemma StrIs(s: string)
    ensures StrNode(s) == Str(Encode(s))
  {}

  lemma ParamsRead(params: seq<(string, string)>)
    ensures Readable(ParamsText(params), ParamsNode(params))
  {
    hide Opens, Readable, ParamItems, ParamNodes;
    LeavesReadable("", None, 0);
    if params != [] {
      ParamItemsRead(params);
      CloseList(ParamItems(params), ParamNodes(params));
    }
  }

  lemma BasicReads(c: ContentType, h: seq<Header>, size: nat)
    ensures Opens(BasicText(c, h, size), BasicNodes(c, h, size))
  {
    hide Opens, Readable, RenderString, RenderNstring, ParamsText, ParamsNode, NstringNode, Encoding, Decimal, Get;
    LeavesReadable(Upper(c.mimeType), None, 0);
    OpenList(RenderString(Upper(c.mimeType)), StrNode(Upper(c.mimeType)));
    var t, n := AddString("(" + RenderString(Upper(c.mimeType)), [StrNode(Upper(c.mimeType))], Upper(c.subtype));
    ParamsRead(c.params);
    t, n := AddItem(t, n, ParamsText(c.params), ParamsNode(c.params));
    t, n := AddNstring(t, n, Get(h, "content-id"));
    t, n := AddNstring(t, n, Get(h, "content-description"));
    t, n := AddString(t, n, Encoding(h));
    t, n := AddNumber(t, n, size);
    assert n == BasicNodes(c, h, size);
    assert t == BasicText(c, h, size);
  }

  /** The printed entity reads as its structure, at every depth. */
  lemma {:induction false} PartReads(p: Parsers, message: Bytes, depth: nat)
    requires depth <= MAX_DEPTH
    ensures Readable(PartText(p, message, depth), PartNode(p, message, depth))
    decreases MAX_DEPTH - depth, 0, 0
  {
    hide Opens, Readable, BasicText, BasicNodes, EnvelopeText, EnvelopeNode, LineCount, BodyOf, Take, RenderString,
      StrNode, Decimal, PartsOf;
    var body, h := BodyOf(message), p.headers(message);
    var c := EffectiveType(p, message, depth);
    if IsMultipart(c) {
      var parts := Take(PartsOf(body, c), Multipart.MAX_PARTS);
      assert parts != [] by { TakeSome(PartsOf(body, c), Multipart.MAX_PARTS); }
      PartItemsRead(p, parts, depth + 1);
      var t, n := AddString(PartItems(p, parts, depth + 1), PartNodes(p, parts, depth + 1), Upper(c.subtype));
      CloseList(t, n);
    } else {
      var t, n := BasicText(c, h, |body|), BasicNodes(c, h, |body|);
      BasicReads(c, h, |body|);
      if IsText(c) {
        t, n := AddNumber(t, n, LineCount(body));
      } else if IsMessage(c) {
        EnvelopeReads(p, p.headers(body));
        t, n := AddItem(t, n, EnvelopeText(p, p.headers(body)), EnvelopeNode(p, p.headers(body)));
        PartReads(p, body, depth + 1);
        t, n := AddItem(t, n, PartText(p, body, depth + 1), PartNode(p, body, depth + 1));
        t, n := AddNumber(t, n, LineCount(body));
      }
      CloseList(t, n);
      assert List(n) == PartNode(p, message, depth);
    }
  }

  lemma TakeSome<T>(s: seq<T>, n: nat)
    requires s != [] && n > 0
    ensures Take(s, n) != []
  {}

  lemma {:induction false} PartItemsRead(p: Parsers, parts: seq<Bytes>, depth: nat)
    requires depth <= MAX_DEPTH && parts != []
    ensures Opens(PartItems(p, parts, depth), PartNodes(p, parts, depth))
    decreases MAX_DEPTH - depth, 1, |parts|
  {
    hide Opens, Readable, PartText, PartNode;
    var front, last := parts[..|parts| - 1], parts[|parts| - 1];
    PartReads(p, last, depth);
    if front == [] {
      OpenList(PartText(p, last, depth), PartNode(p, last, depth));
      assert PartNodes(p, parts, depth) == [] + [PartNode(p, last, depth)] == [PartNode(p, last, depth)];
    } else {
      PartItemsRead(p, front, depth);
      AddGlued(PartItems(p, front, depth), PartNodes(p, front, depth),
               PartText(p, last, depth), PartNode(p, last, depth));
    }
  }

  /** For every message, BODYSTRUCTURE is exactly one list, consumed to the end by a strict
      reader with every leaf at its exact value, if and only if no string it prints holds
      U+0000; otherwise the reader refuses it. */
  lemma BodyStructureReads(p: Parsers, message: Bytes)
    ensures ReadNode(Encode(PartText(p, message, 0)))
            == if PartNulFree(p, message, 0) then Got(PartNode(p, message, 0), []) else Bad
  {
    PartClean(p, message, 0);
    hide PartText, PartNode, PartNulFree, Clean;
    PartReads(p, message, 0);
    assert Delimited([]);
    assert Encode(PartText(p, message, 0)) + [] == Encode(PartText(p, message, 0));
  }

  // ---------------------------------------------------------------- NUL in printed strings

  predicate NulFree(s: string) {
    '\0' !in s
  }

  predicate OptNulFree(v: Option<string>) {
    v.Some? ==> NulFree(v.value)
  }

  predicate AddressesNulFree(addresses: seq<Address>) {
    forall i :: 0 <= i < |addresses| ==>
      NulFree(addresses[i].name) && NulFree(addresses[i].mailbox) && NulFree(addresses[i].host)
  }

  predicate ListNulFree(p: Parsers, value: Option<string>) {
    value.Some? ==> AddressesNulFree(p.addresses(value.value))
  }

  predicate EnvelopeNulFree(p: Parsers, h: seq<Header>) {
    var from := Get(h, "from");
    && OptNulFree(Get(h, "date")) && OptNulFree(Get(h, "subject")) && ListNulFree(p, from)
    && ListNulFree(p, Or(Get(h, "sender"), from)) && ListNulFree(p, Or(Get(h, "reply-to"), from))
    && ListNulFree(p, Get(h, "to")) && ListNulFree(p, Get(h, "cc")) && ListNulFree(p, Get(h, "bcc"))
    && OptNulFree(Get(h, "in-reply-to")) && OptNulFree(Get(h, "message-id"))
  }

  predicate ParamsNulFree(params: seq<(string, string)>) {
    forall i :: 0 <= i < |params| ==> NulFree(params[i].0) && NulFree(params[i].1)
  }

  predicate BasicNulFree(c: ContentType, h: seq<Header>) {
    && NulFree(c.mimeType) && NulFree(c.subtype) && ParamsNulFree(c.params)
    && OptNulFree(Get(h, "content-id")) && OptNulFree(Get(h, "content-description")) && NulFree(Encoding(h))
  }

  /** No string the printer takes from the entity, or from one inside it, holds U+0000. */
  predicate PartNulFree(p: Parsers, message: Bytes, depth: nat)
    requires depth <= MAX_DEPTH
    decreases MAX_DEPTH - depth, 0, 0
  {
    var body, c := BodyOf(message), EffectiveType(p, message, depth);
    if IsMultipart(c) then
      NulFree(c.subtype) && PartsNulFree(p, Take(PartsOf(body, c), Multipart.MAX_PARTS), depth + 1)
    else
      && BasicNulFree(c, p.headers(message))
      && (!IsText(c) && IsMessage(c) ==> EnvelopeNulFree(p, p.headers(body)) && PartNulFree(p, body, depth + 1))
  }

  predicate PartsNulFree(p: Parsers, parts: seq<Bytes>, depth: nat)
    requires depth <= MAX_DEPTH
    decreases MAX_DEPTH - depth, 1, |parts|
  {
    parts != [] ==> PartsNulFree(p, parts[..|parts| - 1], depth) && PartNulFree(p, parts[|parts| - 1], depth)
  }

  lemma StringClean(s: string)
    ensures Clean(StrNode(s)) <==> NulFree(s)
    ensures Clean(StrNode(Upper(s))) <==> NulFree(s)
  {
    NulBytes(s);
    NulBytes(Upper(s));
    UpperNul(s);
    hide Encode, Upper;
  }

  lemma UpperNul(s: string)
    ensures NulFree(Upper(s)) <==> NulFree(s)
  {
    var u := Upper(s);
    assert forall i :: 0 <= i < |s| ==> (u[i] == '\0' <==> s[i] == '\0');
    if '\0' in s {
      var i :| 0 <= i < |s| && s[i] == '\0';
      assert u[i] == '\0';
    }
  }

  lemma NstringClean(v: Option<string>)
    ensures Clean(NstringNode(v)) <==> OptNulFree(v)
  {
    if v.Some? {
      StringClean(v.value);
      hide Encode;
    }
  }

  lemma CleanSnoc(nodes: seq<Node>, node: Node)
    ensures AllClean(nodes + [node]) <==> AllClean(nodes) && Clean(node)
  {
    hide Clean;
    var all := nodes + [node];
    assert all[|nodes|] == node && forall i :: 0 <= i < |nodes| ==> nodes[i] == all[i];
  }

  lemma ListClean(nodes: seq<Node>)
    ensures Clean(List(nodes)) <==> AllClean(nodes)
  {}

  lemma AddressClean(a: Address)
    ensures Clean(AddressNode(a)) <==> NulFree(a.name) && NulFree(a.mailbox) && NulFree(a.host)
  {
    NstringClean(NonEmpty(a.name));
    NstringClean(NonEmpty(a.host));
    StringClean(a.mailbox);
    hide StrNode, NstringNode, Encode;
    var n := AddressNode(a).items;
    assert n[0] == NstringNode(NonEmpty(a.name)) && n[1] == Nil && n[2] == StrNode(a.mailbox)
        && n[3] == NstringNode(NonEmpty(a.host));
  }

  lemma {:induction false} AddressesClean(addresses: seq<Address>)
    ensures AllClean(AddressNodes(addresses)) <==> AddressesNulFree(addresses)
  {
    if addresses != [] {
      var front, last := addresses[..|addresses| - 1], addresses[|addresses| - 1];
      AddressesClean(front);
      AddressClean(last);
      hide AddressNode, Clean, NulFree, AllClean;
      CleanSnoc(AddressNodes(front), AddressNode(last));
      assert addresses == front + [last];
      assert forall i :: 0 <= i < |front| ==> front[i] == addresses[i];
    }
  }

  lemma AddressListClean(p: Parsers, value: Option<string>)
    ensures Clean(AddressListNode(p, value)) <==> ListNulFree(p, value)
  {
    if value.Some? {
      AddressesClean(p.addresses(value.value));
      ListClean(AddressNodes(p.addresses(value.value)));
      hide AddressNodes, AllClean;
    }
  }

  lemma EnvelopeClean(p: Parsers, h: seq<Header>)
    ensures Clean(EnvelopeNode(p, h)) <==> EnvelopeNulFree(p, h)
  {
    hide Clean, NstringNode, AddressListNode, OptNulFree, ListNulFree, Get;
    var from := Get(h, "from");
    NstringClean(Get(h, "date"));
    NstringClean(Get(h, "subject"));
    AddressListClean(p, from);
    AddressListClean(p, Or(Get(h, "sender"), from));
    AddressListClean(p, Or(Get(h, "reply-to"), from));
    AddressListClean(p, Get(h, "to"));
    AddressListClean(p, Get(h, "cc"));
    AddressListClean(p, Get(h, "bcc"));
    NstringClean(Get(h, "in-reply-to"));
    NstringClean(Get(h, "message-id"));
    var n := EnvelopeNode(p, h).items;
    ListClean(n);
    TenClean(n);
  }

  lemma TenClean(n: seq<Node>)
    requires |n| == 10
    ensures AllClean(n) <==>
            && Clean(n[0]) && Clean(n[1]) && Clean(n[2]) && Clean(n[3]) && Clean(n[4])
            && Clean(n[5]) && Clean(n[6]) && Clean(n[7]) && Clean(n[8]) && Clean(n[9])
  {
    hide Clean;
  }

  lemma {:induction false} ParamsClean(params: seq<(string, string)>)
    ensures AllClean(ParamNodes(params)) <==> ParamsNulFree(params)
  {
    if params != [] {
      var front, last := params[..|params| - 1], params[|params| - 1];
      ParamsClean(front);
      ParamNodesUnfold(params);
      ParamsNulFreeSnoc(front, last);
      assert params == front + [last];
      StringClean(last.0);
      StringClean(last.1);
      hide *;
      CleanSnoc(ParamNodes(front), StrNode(Upper(last.0)));
      CleanSnoc(ParamNodes(front) + [StrNode(Upper(last.0))], StrNode(last.1));
    }
  }

  lemma ParamNodesUnfold(params: seq<(string, string)>)
    requires params != []
    ensures ParamNodes(params) ==
            ParamNodes(params[..|params| - 1]) + [StrNode(Upper(params[|params| - 1].0))]
            + [StrNode(params[|params| - 1].1)]
  {
    hide StrNode, Upper;
  }

  lemma ParamsNulFreeSnoc(front: seq<(string, string)>, last: (string, string))
    ensures ParamsNulFree(front + [last]) <==> ParamsNulFree(front) && NulFree(last.0) && NulFree(last.1)
  {
    hide NulFree;
    var params := front + [last];
    assert params[|front|] == last && forall i :: 0 <= i < |front| ==> params[i] == front[i];
  }

  lemma BasicClean(c: ContentType, h: seq<Header>, size: nat)
    ensures AllClean(BasicNodes(c, h, size)) <==> BasicNulFree(c, h)
  {
    hide Clean, StrNode, ParamsNode, NstringNode, NulFree, OptNulFree, ParamsNulFree, Get, Encoding, Upper;
    StringClean(c.mimeType);
    StringClean(c.subtype);
    ParamsNodeClean(c.params);
    NstringClean(Get(h, "content-id"));
    NstringClean(Get(h, "content-description"));
    StringClean(Encoding(h));
    NumberClean(size);
    SevenClean(BasicNodes(c, h, size));
  }

  lemma ParamsNodeClean(params: seq<(string, string)>)
    ensures Clean(ParamsNode(params)) <==> ParamsNulFree(params)
  {
    ParamsClean(params);
    ListClean(ParamNodes(params));
    hide ParamNodes, AllClean;
  }

  lemma SevenClean(n: seq<Node>)
    requires |n| == 7
    ensures AllClean(n) <==>
            Clean(n[0]) && Clean(n[1]) && Clean(n[2]) && Clean(n[3]) && Clean(n[4]) && Clean(n[5]) && Clean(n[6])
  {
    hide Clean;
  }

  /** The structure is clean exactly when no printed string holds U+0000. */
  lemma {:induction false} PartClean(p: Parsers, message: Bytes, depth: nat)
    requires depth <= MAX_DEPTH
    ensures Clean(PartNode(p, message, depth)) <==> PartNulFree(p, message, depth)
    decreases MAX_DEPTH - depth, 0, 0
  {
    hide Clean, AllClean, BasicNodes, BasicNulFree, EnvelopeNode, EnvelopeNulFree, StrNode, NulFree, LineCount,
      BodyOf, PartsOf, Upper;
    var body, h := BodyOf(message), p.headers(message);
    var c := EffectiveType(p, message, depth);
    ListClean(PartNode(p, message, depth).items);
    if IsMultipart(c) {
      var parts := Take(PartsOf(body, c), Multipart.MAX_PARTS);
      PartsClean(p, parts, depth + 1);
      StringClean(c.subtype);
      CleanSnoc(PartNodes(p, parts, depth + 1), StrNode(Upper(c.subtype)));
    } else {
      var base, lines := BasicNodes(c, h, |body|), Num(LineCount(body));
      BasicClean(c, h, |body|);
      NumberClean(LineCount(body));
      if IsText(c) {
        CleanSnoc(base, lines);
      } else if IsMessage(c) {
        EnvelopeClean(p, p.headers(body));
        PartClean(p, body, depth + 1);
        var envelope, inner := EnvelopeNode(p, p.headers(body)), PartNode(p, body, depth + 1);
        CleanSnoc(base, envelope);
        CleanSnoc(base + [envelope], inner);
        CleanSnoc(base + [envelope] + [inner], lines);
        assert base + [envelope] + [inner] + [lines] == base + [envelope, inner, lines];
      }
    }
  }

  lemma NumberClean(n: nat)
    ensures Clean(Num(n))
  {}

  lemma {:induction false} PartsClean(p: Parsers, parts: seq<Bytes>, depth: nat)
    requires depth <= MAX_DEPTH
    ensures AllClean(PartNodes(p, parts, depth)) <==> PartsNulFree(p, parts, depth)
    decreases MAX_DEPTH - depth, 1, |parts|
  {
    if parts != [] {
      var front, last := parts[..|parts| - 1], parts[|parts| - 1];
      PartsClean(p, front, depth);
      PartClean(p, last, depth);
      hide Clean, AllClean, PartNode, PartNulFree;
      CleanSnoc(PartNodes(p, front, depth), PartNode(p, last, depth));
    }
  }

  /** A description with U+0000 in it is printed, and the answer refused. */
  lemma NulIsRefused(p: Parsers, message: Bytes)
    requires !IsMultipart(EffectiveType(p, message, 0))
    requires !OptNulFree(Get(p.headers(message), "content-description"))
    ensures ReadNode(Encode(PartText(p, message, 0))) == Bad
  {
    hide PartText, PartNode, IsMultipart, IsText, IsMessage, EffectiveType, OptNulFree, Get;
    assert !BasicNulFree(EffectiveType(p, message, 0), p.headers(message));
    BodyStructureReads(p, message);
  }

  // ---------------------------------------------------------------- the grammar of BODYSTRUCTURE

  predicate IsNstring(n: Node) { n.Nil? || n.Str? }

  predicate IsAddress(n: Node) {
    n.List? && |n.items| == 4 && IsNstring(n.items[0]) && IsNstring(n.items[1])
    && IsNstring(n.items[2]) && IsNstring(n.items[3])
  }

  predicate IsAddressList(n: Node) {
    n.Nil? || (n.List? && n.items != [] && forall i :: 0 <= i < |n.items| ==> IsAddress(n.items[i]))
  }

  predicate IsEnvelope(n: Node) {
    && n.List? && |n.items| == 10
    && IsNstring(n.items[0]) && IsNstring(n.items[1]) && IsNstring(n.items[8]) && IsNstring(n.items[9])
    && forall i :: 2 <= i < 8 ==> IsAddressList(n.items[i])
  }

  predicate IsParams(n: Node) {
    n.Nil? || (n.List? && |n.items| > 0 && |n.items| % 2 == 0
               && forall i :: 0 <= i < |n.items| ==> n.items[i].Str?)
  }

  predicate IsBasic(items: seq<Node>) {
    && |items| >= 7 && items[0].Str? && items[1].Str? && IsParams(items[2]) && IsNstring(items[3])
    && IsNstring(items[4]) && items[5].Str? && items[6].Num?
  }

  /** `body` of section 9 of RFC 3501: a multipart, text, message or basic body. */
  predicate IsBody(n: Node) {
    n.List? && |n.items| >= 2 &&
    if n.items[0].List? then
      n.items[|n.items| - 1].Str? && forall i :: 0 <= i < |n.items| - 1 ==> IsBody(n.items[i])
    else
      IsBasic(n.items) &&
      if n.items[0] == StrNode("TEXT") then |n.items| == 8 && n.items[7].Num?
      else if n.items[0] == StrNode("MESSAGE") && n.items[1] == StrNode("RFC822") then
        |n.items| == 10 && IsEnvelope(n.items[7]) && IsBody(n.items[8]) && n.items[9].Num?
      else |n.items| == 7
  }

  lemma UpperMatches(s: string, lower: string, upper: string)
    requires Upper(lower) == upper && IsAscii(upper)
    requires forall i :: 0 <= i < |lower| ==> AsciiLower(lower[i]) == lower[i]
    ensures EqIgnoreCase(s, lower) <==> StrNode(Upper(s)) == StrNode(upper)
  {
    if StrNode(Upper(s)) == StrNode(upper) {
      EncodeIsAscii(Upper(s), upper);
      forall i | 0 <= i < |s| ensures AsciiLower(s[i]) == AsciiLower(lower[i]) {
        assert Upper(s)[i] == Upper(lower)[i];
      }
    }
    if EqIgnoreCase(s, lower) {
      forall i | 0 <= i < |s| ensures Upper(s)[i] == upper[i] {
        assert Upper(lower)[i] == upper[i];
      }
      assert Upper(s) == upper;
    }
  }

  lemma {:induction false} AddressNodesOk(addresses: seq<Address>)
    ensures |AddressNodes(addresses)| == |addresses|
    ensures forall i :: 0 <= i < |addresses| ==> IsAddress(AddressNodes(addresses)[i])
  {
    if addresses != [] {
      AddressNodesOk(addresses[..|addresses| - 1]);
    }
  }

  lemma AddressListOk(p: Parsers, value: Option<string>)
    ensures IsAddressList(AddressListNode(p, value))
  {
    if value.Some? {
      AddressNodesOk(p.addresses(value.value));
    }
  }

  lemma EnvelopeOk(p: Parsers, h: seq<Header>)
    ensures IsEnvelope(EnvelopeNode(p, h))
  {
    hide AddressListNode, Get, IsAddressList;
    var from := Get(h, "from");
    AddressListOk(p, from);
    AddressListOk(p, Or(Get(h, "sender"), from));
    AddressListOk(p, Or(Get(h, "reply-to"), from));
    AddressListOk(p, Get(h, "to"));
    AddressListOk(p, Get(h, "cc"));
    AddressListOk(p, Get(h, "bcc"));
  }

  lemma {:induction false} ParamNodesOk(params: seq<(string, string)>)
    ensures |ParamNodes(params)| == 2 * |params|
    ensures forall i :: 0 <= i < |ParamNodes(params)| ==> ParamNodes(params)[i].Str?
  {
    if params != [] {
      ParamNodesOk(params[..|params| - 1]);
    }
  }

  /** For every message the printed structure has the shape the grammar prescribes
      for its type: parts then subtype, or the basic fields with the extra fields
      of exactly the text and message/rfc822 types. */
  lemma {:induction false} StructureIsBody(p: Parsers, message: Bytes, depth: nat)
    requires depth <= MAX_DEPTH
    ensures IsBody(PartNode(p, message, depth))
    decreases MAX_DEPTH - depth, 0, 0
  {
    hide EnvelopeNode, IsEnvelope, IsParams, ParamsNode, Encoding, LineCount, Take, StrNode, Upper, EqIgnoreCase,
      BodyOf,
      PartsOf, EffectiveType, IsMultipart, IsMessage, IsText, Get, NstringNode;
    var body, h := BodyOf(message), p.headers(message);
    var c := EffectiveType(p, message, depth);
    var n := PartNode(p, message, depth);
    if IsMultipart(c) {
      var parts := Take(PartsOf(body, c), Multipart.MAX_PARTS);
      MultipartHasParts(p, message, depth);
      TakeSome(PartsOf(body, c), Multipart.MAX_PARTS);
      PartNodesOk(p, parts, depth + 1);
      StrIs(Upper(c.subtype));
      assert n.items[..|parts|] == PartNodes(p, parts, depth + 1);
      assert n.items[0] == PartNodes(p, parts, depth + 1)[0];
    } else {
      BasicOk(c, h, |body|);
      KindMatches(c);
      hide BasicNodes, IsBasic;
      if IsMessage(c) && !IsText(c) {
        DepthAllows(p, message, depth);
        EnvelopeOk(p, p.headers(body));
        StructureIsBody(p, body, depth + 1);
      }
    }
  }

  lemma BasicOk(c: ContentType, h: seq<Header>, size: nat)
    ensures var items := BasicNodes(c, h, size);
            && IsBasic(items) && |items| == 7
            && items[0] == StrNode(Upper(c.mimeType)) && items[1] == StrNode(Upper(c.subtype))
    ensures forall more :: IsBasic(BasicNodes(c, h, size) + more)
  {
    ParamsOk(c.params);
    hide IsParams, ParamsNode;
  }

  lemma DepthAllows(p: Parsers, message: Bytes, depth: nat)
    requires depth <= MAX_DEPTH
    ensures var c := EffectiveType(p, message, depth); IsMultipart(c) || IsMessage(c) ==> depth < MAX_DEPTH
  {}

  lemma MultipartHasParts(p: Parsers, message: Bytes, depth: nat)
    requires IsMultipart(EffectiveType(p, message, depth))
    ensures depth < MAX_DEPTH && PartsOf(BodyOf(message), EffectiveType(p, message, depth)) != []
  {
    hide PartsOf;
  }

  lemma ParamsOk(params: seq<(string, string)>)
    ensures IsParams(ParamsNode(params))
  {
    ParamNodesOk(params);
  }

  lemma KindMatches(c: ContentType)
    ensures IsText(c) <==> StrNode(Upper(c.mimeType)) == StrNode("TEXT")
    ensures IsMessage(c) <==>
            StrNode(Upper(c.mimeType)) == StrNode("MESSAGE") && StrNode(Upper(c.subtype)) == StrNode("RFC822")
  {
    TypeNames();
    hide Upper, StrNode, EqIgnoreCase;
    UpperMatches(c.mimeType, "text", "TEXT");
    UpperMatches(c.mimeType, "message", "MESSAGE");
    UpperMatches(c.subtype, "rfc822", "RFC822");
  }

  lemma TypeNames()
    ensures Upper("text") == "TEXT" && Upper("message") == "MESSAGE" && Upper("rfc822") == "RFC822"
  {}

  lemma {:induction false} PartNodesOk(p: Parsers, parts: seq<Bytes>, depth: nat)
    requires depth <= MAX_DEPTH
    ensures forall i :: 0 <= i < |parts| ==> IsBody(PartNodes(p, parts, depth)[i])
    decreases MAX_DEPTH - depth, 1, |parts|
  {
    hide IsBody, PartNode;
    if parts != [] {
      PartNodesOk(p, parts[..|parts| - 1], depth);
      StructureIsBody(p, parts[|parts| - 1], depth);
    }
  }

  // ---------------------------------------------------------------- the printing code

  lemma AddressStep(addresses: seq<Address>, i: nat)
    requires i < |addresses|
    ensures AddressItems(addresses[..i + 1]) == AddressItems(addresses[..i]) + AddressText(addresses[i])
  {
    hide AddressText;
    assert addresses[..i + 1][..i] == addresses[..i];
  }

  method PrintAddressList(p: Parsers, value: Option<string>) returns (out: string)
    ensures out == AddressListText(p, value)
  {
    if value.None? {
      return "NIL";
    }
    var addresses := p.addresses(value.value);
    if addresses == [] {
      return "NIL";
    }
    out := "(";
    for i := 0 to |addresses|
      invariant out == AddressItems(addresses[..i])
    {
      hide AddressText, AddressItems;
      AddressStep(addresses, i);
      out := out + AddressText(addresses[i]);
    }
    assert addresses[..|addresses|] == addresses;
    out := out + ")";
  }

  lemma ParamStep(params: seq<(string, string)>, i: nat)
    requires i < |params|
    ensures ParamItems(params[..i + 1]) == (if i == 0 then "(" else ParamItems(params[..i]) + " ")
                                           + RenderString(Upper(params[i].0)) + " " + RenderString(params[i].1)
  {
    hide RenderString, Upper;
    assert params[..i + 1][..i] == params[..i];
    assert "(" + "" == "(";
  }

  lemma NoParams(params: seq<(string, string)>)
    ensures ParamItems(params[..0]) == "(" && ParamsText([]) == "NIL"
  {}

  method PrintParams(params: seq<(string, string)>) returns (out: string)
    ensures out == ParamsText(params)
  {
    if params == [] {
      return "NIL";
    }
    hide *;
    out := "(";
    var first := true;
    NoParams(params);
    for i := 0 to |params|
      invariant out == ParamItems(params[..i])
      invariant first == (i == 0) && (first ==> out == "(")
    {
      ParamStep(params, i);
      if !first {
        out := out + " ";
      }
      assert out == if i == 0 then "(" else ParamItems(params[..i]) + " ";
      first := false;
      out := out + RenderString(Upper(params[i].0));
      out := out + " ";
      out := out + RenderString(params[i].1);
    }
    AllParams(params);
    out := out + ")";
  }

  lemma AllParams(params: seq<(string, string)>)
    requires params != []
    ensures ParamItems(params[..|params|]) + ")" == ParamsText(params)
  {
    assert params[..|params|] == params;
  }

  method PrintBasic(content: ContentType, headers: seq<Header>, size: nat) returns (out: string)
    ensures out == BasicText(content, headers, size)
  {
    hide Encoding, RenderString, RenderNstring, ParamsText, Get, Upper, Decimal;
    var params := PrintParams(content.params);
    out := "(" + RenderString(Upper(content.mimeType)) + " " + RenderString(Upper(content.subtype)) + " " + params
      + " " + RenderNstring(Get(headers, "content-id")) + " " + RenderNstring(Get(headers, "content-description"))
      + " " + RenderString(Encoding(headers)) + " " + Decimal(size);
  }

  method FindParts(body: Bytes, content: ContentType) returns (parts: seq<Bytes>)
    ensures parts == PartsOf(body, content)
  {
    var boundary := Param(content.params, "boundary");
    if boundary.None? {
      return [];
    }
    var slices := Multipart.MultipartParts(body, Encode(boundary.value));
    parts := Multipart.Contents(body, slices);
  }

  method PrintParts(p: Parsers, parts: seq<Bytes>, depth: nat) returns (out: string)
    requires depth <= MAX_DEPTH
    ensures out == PartItems(p, parts, depth)
    decreases MAX_DEPTH - depth, 1
  {
    out := "(";
    for i := 0 to |parts|
      invariant out == PartItems(p, parts[..i], depth)
    {
      hide PartText;
      assert parts[..i + 1][..i] == parts[..i];
      var text := PrintPart(p, parts[i], depth);
      out := out + text;
    }
    assert parts[..|parts|] == parts;
  }

  /** The recursive walk, pushing onto one output string. */
  method PrintPart(p: Parsers, message: Bytes, depth: nat) returns (out: string)
    requires depth <= MAX_DEPTH
    ensures out == PartText(p, message, depth)
    decreases MAX_DEPTH - depth, 0
  {
    hide PartsOf, RenderString, BasicText, EnvelopeText, LineCount, PartItems, BodyOf, Get, Upper, Decimal, Take;
    var body, headers := BodyOf(message), p.headers(message);
    var content := p.contentType(Get(headers, "content-type"));
    if depth >= MAX_DEPTH {
      content := OCTET_STREAM;
    }
    if IsMultipart(content) && depth < MAX_DEPTH {
      var parts := FindParts(body, content);
      if parts != [] {
        var list := PrintParts(p, Take(parts, Multipart.MAX_PARTS), depth + 1);
        return list + " " + RenderString(Upper(content.subtype)) + ")";
      }
      content := OCTET_STREAM;
    }
    assert content == EffectiveType(p, message, depth);
    var base := PrintBasic(content, headers, |body|);
    if IsText(content) {
      out := base + " " + Decimal(LineCount(body)) + ")";
    } else if IsMessage(content) {
      var inner := PrintPart(p, body, depth + 1);
      out := base + " " + EnvelopeText(p, p.headers(body)) + " " + inner + " " + Decimal(LineCount(body)) + ")";
    } else {
      out := base + ")";
    }
  }

  /** The server's answer: one list in the grammar, read back to the end by a strict client
      exactly when no string in it holds U+0000. */
  method BodyStructure(p: Parsers, message: Bytes) returns (out: string)
    ensures ReadNode(Encode(out)) == if PartNulFree(p, message, 0) then Got(PartNode(p, message, 0), []) else Bad
    ensures IsBody(PartNode(p, message, 0))
  {
    out := PrintPart(p, message, 0);
    BodyStructureReads(p, message);
    StructureIsBody(p, message, 0);
  }

  // ---------------------------------------------------------------- what goes into the structure

  /** A header is looked up by its first occurrence, letter case aside. */
  lemma {:induction false} GetIsFirst(headers: seq<Header>, name: string, value: string)
    ensures Get(headers, name) == Some(value) <==>
            exists i :: (0 <= i < |headers| && EqIgnoreCase(headers[i].name, name) && headers[i].value == value
                         && forall j :: 0 <= j < i ==> !EqIgnoreCase(headers[j].name, name))
  {
    hide EqIgnoreCase;
    if headers != [] {
      GetIsFirst(headers[1..], name, value);
      if EqIgnoreCase(headers[0].name, name) {
        if headers[0].value == value { assert 0 <= 0 < |headers|; }
      } else {
        var rest := headers[1..];
        if i :| (0 <= i < |rest| && EqIgnoreCase(rest[i].name, name) && rest[i].value == value
                 && forall j :: 0 <= j < i ==> !EqIgnoreCase(rest[j].name, name)) {
          assert headers[i + 1] == rest[i];
          forall j | 0 <= j < i + 1 ensures !EqIgnoreCase(headers[j].name, name) {
            if j > 0 { assert headers[j] == rest[j - 1]; }
          }
        }
        if i :| (0 <= i < |headers| && EqIgnoreCase(headers[i].name, name) && headers[i].value == value
                 && forall j :: 0 <= j < i ==> !EqIgnoreCase(headers[j].name, name)) {
          assert rest[i - 1] == headers[i];
          forall j | 0 <= j < i - 1 ensures !EqIgnoreCase(rest[j].name, name) { assert rest[j] == headers[j + 1]; }
        }
      }
    }
  }

  /** The fields of an address: its name and host are NIL when empty, its route always. */
  lemma AddressFields(a: Address)
    ensures AddressNode(a) == List([if a.name == "" then Nil else Str(Encode(a.name)), Nil, Str(Encode(a.mailbox)),
                                    if a.host == "" then Nil else Str(Encode(a.host))])
  {
    hide Encode;
  }

  /** Sender and reply-to fall back to from, and no other field to anything. */
  lemma EnvelopeFallsBack(p: Parsers, h: seq<Header>)
    ensures var items, from := EnvelopeNode(p, h).items, Get(h, "from");
            && items[2] == AddressListNode(p, from)
            && items[3] == AddressListNode(p, if Get(h, "sender").Some? then Get(h, "sender") else from)
            && items[4] == AddressListNode(p, if Get(h, "reply-to").Some? then Get(h, "reply-to") else from)
            && items[5] == AddressListNode(p, Get(h, "to")) && items[6] == AddressListNode(p, Get(h, "cc"))
            && items[7] == AddressListNode(p, Get(h, "bcc"))
            && items[0] == NstringNode(Get(h, "date")) && items[1] == NstringNode(Get(h, "subject"))
            && items[8] == NstringNode(Get(h, "in-reply-to")) && items[9] == NstringNode(Get(h, "message-id"))
  {
    hide AddressListNode, Get;
  }

  /** The fields of an entity without parts: type, parameters, id, description, encoding and size,
      then the line count of a text, or the envelope, structure and line count of a message. */
  lemma SinglePartFields(p: Parsers, message: Bytes, depth: nat)
    requires depth <= MAX_DEPTH && !IsMultipart(EffectiveType(p, message, depth))
    ensures var body, h, items := BodyOf(message), p.headers(message), PartNode(p, message, depth).items;
            var t := EffectiveType(p, message, depth);
            && |items| >= 7 && items[0] == Str(Encode(Upper(t.mimeType))) && items[1] == Str(Encode(Upper(t.subtype)))
            && items[2] == ParamsNode(t.params) && items[3] == NstringNode(Get(h, "content-id"))
            && items[4] == NstringNode(Get(h, "content-description")) && items[5] == Str(Encode(Encoding(h)))
            && items[6] == Num(|body|)
            && (EqIgnoreCase(t.mimeType, "text") ==> |items| == 8 && items[7] == Num(LineCount(body)))
            && (EqIgnoreCase(t.mimeType, "message") && EqIgnoreCase(t.subtype, "rfc822") ==>
                  && |items| == 10 && depth < MAX_DEPTH && items[7] == EnvelopeNode(p, p.headers(body))
                  && items[8] == PartNode(p, body, depth + 1) && items[9] == Num(LineCount(body)))
  {
    hide BodyOf, LineCount, Encode, Encoding, Get, ParamsNode, EnvelopeNode, Upper;
    DepthAllows(p, message, depth);
    NotBoth(EffectiveType(p, message, depth));
    hide EffectiveType, EqIgnoreCase;
  }

  lemma NotBoth(t: ContentType)
    ensures !(IsText(t) && IsMessage(t))
  {}

  /** Parameters alternate between names in capitals and values. */
  lemma {:induction false} ParamsAlternate(params: seq<(string, string)>)
    ensures |ParamNodes(params)| == 2 * |params|
    ensures forall i :: 0 <= i < |params| ==>
              && ParamNodes(params)[2 * i] == Str(Encode(Upper(params[i].0)))
              && ParamNodes(params)[2 * i + 1] == Str(Encode(params[i].1))
  {
    hide Encode, Upper;
    if params != [] { ParamsAlternate(params[..|params| - 1]); }
  }

  /** Lines without LF, each ended by one. */
  function LinesText(lines: seq<Bytes>): Bytes {
    if lines == [] then [] else lines[0] + [10] + LinesText(lines[1..])
  }

  /** A body has as many lines as it has line ends, and one more when it ends in the middle of one. */
  lemma {:induction false} LinesAreCounted(lines: seq<Bytes>, last: Bytes)
    requires (forall i :: 0 <= i < |lines| ==> 10 !in lines[i]) && 10 !in last
    ensures CountLf(LinesText(lines) + last) == |lines|
    ensures LineCount(LinesText(lines) + last) == |lines| + if last == [] then 0 else 1
  {
    var body := LinesText(lines) + last;
    if lines == [] {
      assert body == last;
      NoLineEnds(last);
      if last != [] { assert last[|last| - 1] in last; }
    } else {
      var more := LinesText(lines[1..]) + last;
      LinesAreCounted(lines[1..], last);
      assert lines[0] in lines;
      assert body == lines[0] + [10] + more by { ThreeJoined(lines[0] + [10], LinesText(lines[1..]), last); }
      CountAfterLine(lines[0], more);
      LastOfBody(lines[0], more);
      hide LinesText, CountLf;
    }
  }

  lemma ThreeJoined(a: Bytes, b: Bytes, c: Bytes)
    ensures a + b + c == a + (b + c)
  {}

  lemma LastOfBody(line: Bytes, more: Bytes)
    ensures var body := line + [10] + more;
            body != [] && body[|body| - 1] == if more == [] then 10 else more[|more| - 1]
  {}

  lemma {:induction false} NoLineEnds(s: Bytes)
    requires 10 !in s
    ensures CountLf(s) == 0
  {
    if s != [] { NoLineEnds(s[1..]); }
  }

  lemma {:induction false} CountAfterLine(line: Bytes, more: Bytes)
    requires 10 !in line
    ensures CountLf(line + [10] + more) == 1 + CountLf(more)
  {
    var s := line + [10] + more;
    if line == [] {
      assert s[0] == 10 && s[1..] == more;
    } else {
      assert s[0] == line[0] && s[1..] == line[1..] + [10] + more;
      CountAfterLine(line[1..], more);
    }
  }

  /** The transfer encoding is what stands before the first semicolon, trimmed and in capitals;
      7BIT when there is nothing. */
  lemma EncodingReads(headers: seq<Header>, text: string, rest: string)
    requires ';' !in text && (rest == "" || rest[0] == ';')
    ensures Get(headers, "content-transfer-encoding") == None ==> Encoding(headers) == "7BIT"
    ensures Get(headers, "content-transfer-encoding") == Some(text + rest) ==>
              Encoding(headers) == if Trim(text) == "" then "7BIT" else Upper(Trim(text))
  {
    assert |Upper(Trim(text))| == |Trim(text)|;
    hide Get, Trim, Upper;
    if rest == "" {
      SplitNone(text, ';');
      assert text + rest == text;
    } else {
      SplitAt(text, ';', rest[1..]);
      assert text + rest == text + [';'] + rest[1..];
    }
    hide Split;
  }

  /** At the deepest level, and for a multipart entity without parts, the structure is that of an
      application/octet-stream without parameters. */
  lemma FallbackIsOctetStream(p: Parsers, message: Bytes, depth: nat)
    requires depth <= 16
    requires var t := p.contentType(Get(p.headers(message), "content-type"));
             depth == 16 || (EqIgnoreCase(t.mimeType, "multipart") && PartsOf(BodyOf(message), t) == [])
    ensures var items := PartNode(p, message, depth).items;
            && |items| == 7
            && items[0] == Str(Encode("APPLICATION")) && items[1] == Str(Encode("OCTET-STREAM")) && items[2] == Nil
  {
    hide PartsOf, Get, BodyOf, Encoding, Encode;
    OctetStreamNames();
    assert EffectiveType(p, message, depth) == OCTET_STREAM;
    hide EffectiveType, EqIgnoreCase, Upper;
  }

  lemma OctetStreamNames()
    ensures Upper("application") == "APPLICATION" && Upper("octet-stream") == "OCTET-STREAM"
    ensures !IsMultipart(OCTET_STREAM) && !IsText(OCTET_STREAM) && !IsMessage(OCTET_STREAM)
  {}

  /** Parts composed under the boundary of their multipart entity come out as the structures of
      exactly these parts, in order, with the subtype behind them. */
  lemma PartsAreStructured(p: Parsers, message: Bytes, depth: nat, parts: seq<Bytes>, boundary: string)
    requires depth < 16 && 0 < |parts| <= 1000
    requires var t := p.contentType(Get(p.headers(message), "content-type"));
             && EqIgnoreCase(t.mimeType, "multipart") && Param(t.params, "boundary") == Some(boundary)
    requires Multipart.ValidBoundary(Encode(boundary)) && Multipart.AllClean(parts, Encode(boundary))
    requires BodyOf(message) == Multipart.Join(parts, Encode(boundary))
    ensures var t, items := p.contentType(Get(p.headers(message), "content-type")), PartNode(p, message, depth).items;
            && |items| == |parts| + 1 && items[|parts|] == Str(Encode(Upper(t.subtype)))
            && forall i :: 0 <= i < |parts| ==> items[i] == PartNode(p, parts[i], depth + 1)
  {
    var t := p.contentType(Get(p.headers(message), "content-type"));
    Multipart.SplitUndoesJoin(parts, Encode(boundary));
    assert PartsOf(BodyOf(message), t) == parts by { hide Multipart.PartSlices, Multipart.Contents; }
    hide PartsOf, Multipart.Join, Multipart.AllClean, Multipart.ValidBoundary, Encode, Get, Param, Upper, EqIgnoreCase;
    NodesOfParts(p, parts, depth + 1);
  }

  lemma {:induction false} NodesOfParts(p: Parsers, parts: seq<Bytes>, depth: nat)
    requires depth <= MAX_DEPTH
    ensures forall i :: 0 <= i < |parts| ==> PartNodes(p, parts, depth)[i] == PartNode(p, parts[i], depth)
    decreases |parts|
  {
    hide PartNode;
    if parts != [] { NodesOfParts(p, parts[..|parts| - 1], depth); }
  }

  /** The printer quotes exactly the strings of printable ASCII and tabs; every other one is a literal. */
  lemma QuotedExactly(value: string)
    ensures RenderString(value) != [] && RenderString(value)[0] in {'"', '{'}
    ensures RenderString(value)[0] == '"' <==>
            forall i :: 0 <= i < |value| ==> value[i] == '\t' || ' ' <= value[i] <= '~'
  {
    hide Encode, Decimal, QuotedBody;
    forall i | 0 <= i < |value| ensures IsPlain(value[i]) <==> value[i] == '\t' || ' ' <= value[i] <= '~' {}
    hide IsPlain;
    if NeedsLiteral(value) {
      var text := "{" + Decimal(|Encode(value)|) + "}\r\n" + value;
      assert RenderString(value) == text && text[0] == '{';
    } else {
      assert RenderString(value) == Quoted(value) && Quoted(value)[0] == '"';
      assert forall i :: 0 <= i < |value| ==> IsPlain(value[i]);
    }
  }
}
