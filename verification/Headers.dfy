/** Reading the header block of a message, and why it gives back the fields that were written. */
module Headers {
  import opened Common
  import opened Text
  import opened Utf8
  import opened ImapText
  import opened Structure
  import Multipart

  type Bytes = seq<byte>

  const MAX_HEADER_BYTES: nat := 1048576
  const MAX_HEADER_LINES: nat := 2000

  const COLON: byte := 58
  const BLANK: byte := 32
  const TAB: byte := 9
  const CRLF: Bytes := [CR, LF]
  const BLANK_LINE: Bytes := [CR, LF, CR, LF]

  /** The bytes up to the blank line; all of them when there is none. */
  function HeaderBytes(message: Bytes): Bytes {
    var crlf := Find(message, BLANK_LINE, 0);
    if crlf.Some? then message[..crlf.value + 2]
    else
      var lf := Find(message, [LF, LF], 0);
      if lf.Some? then message[..lf.value + 1] else message
  }

  function Clip(block: Bytes): Bytes {
    if |block| <= MAX_HEADER_BYTES then block else block[..MAX_HEADER_BYTES]
  }

  /** A line without the line break that may end it. */
  function StripBreak(raw: Bytes): Bytes {
    StripCr(if raw != [] && raw[|raw| - 1] == LF then raw[..|raw| - 1] else raw)
  }

  function Lower(s: string): (t: string)
    ensures |t| == |s|
  {
    seq(|s|, i requires 0 <= i < |s| => AsciiLower(s[i]))
  }

  predicate IsGraphic(s: string) {
    forall i :: 0 <= i < |s| ==> '!' <= s[i] <= '~'
  }

  /** A continuation line adds its text to the last header. */
  function Extended(headers: seq<Header>, text: string): seq<Header> {
    if headers == [] || text == [] then headers
    else
      var front, last := headers[..|headers| - 1], headers[|headers| - 1];
      front + [last.(value := if last.value == [] then text else last.value + " " + text)]
  }

  /** The headers after one more line; none when the line is empty, which ends them. */
  function AddLine(lossy: Bytes -> string, headers: seq<Header>, raw: Bytes): Option<seq<Header>> {
    var line := StripBreak(raw);
    if line == [] then None
    else if line[0] == BLANK || line[0] == TAB then Some(Extended(headers, Trim(lossy(line))))
    else
      var colon := Find(line, [COLON], 0);
      if colon.None? then Some(headers)
      else
        var name := Lower(Trim(lossy(line[..colon.value])));
        if name == [] || !IsGraphic(name) then Some(headers)
        else Some(headers + [Header(name, Trim(lossy(line[colon.value + 1..])))])
  }

  function AddLines(lossy: Bytes -> string, headers: seq<Header>, block: Bytes): seq<Header>
    decreases |block|
  {
    if block == [] || |headers| >= MAX_HEADER_LINES then headers
    else
      var end := Multipart.LineEnd(block, 0);
      match AddLine(lossy, headers, block[..end])
      case None => headers
      case Some(more) => AddLines(lossy, more, block[end..])
  }

  function ParseHeaders(lossy: Bytes -> string, message: Bytes): seq<Header> {
    AddLines(lossy, [], Clip(HeaderBytes(message)))
  }

  /** The loop over the lines of the header block. */
  method ReadHeaders(lossy: Bytes -> string, message: Bytes) returns (headers: seq<Header>)
    ensures headers == ParseHeaders(lossy, message)
  {
    hide AddLine, HeaderBytes, Clip;
    var block := Clip(HeaderBytes(message));
    headers := [];
    while block != []
      invariant AddLines(lossy, headers, block) == ParseHeaders(lossy, message)
      decreases |block|
    {
      if |headers| >= MAX_HEADER_LINES {
        break;
      }
      var end := Multipart.LineEnd(block, 0);
      var more := AddLine(lossy, headers, block[..end]);
      if more.None? {
        break;
      }
      headers := more.value;
      block := block[end..];
    }
  }

  // ---------------------------------------------------------------- written header blocks

  /** A line of a header block: a field, a continuation behind a blank or a tab, or a line that
      is neither. */
  datatype Line = Field(name: string, raw: string) | Fold(tab: bool, raw: string) | Junk(text: string)

  predicate IsName(name: string) {
    name != [] && IsGraphic(name) && ':' !in name
  }

  /** What each kind of line may hold. A junk line starts with no blank, and has no colon or no
      proper name before its first colon. */
  predicate IsLine(l: Line) {
    match l
    case Field(name, raw) => IsName(name) && '\n' !in raw
    case Fold(_, raw) => '\n' !in raw
    case Junk(text) =>
      && text != [] && text[0] != ' ' && text[0] != '\t' && '\n' !in text
      && forall k :: 0 <= k < |text| && text[k] == ':' && ':' !in text[..k] ==> !IsName(Trim(text[..k]))
  }

  predicate AreLines(lines: seq<Line>) {
    forall i :: 0 <= i < |lines| ==> IsLine(lines[i])
  }

  /** The bytes of a line, without its line break. */
  function LineBytes(l: Line): Bytes {
    match l
    case Field(name, raw) => Encode(name) + ([COLON] + Encode(raw))
    case Fold(tab, raw) => Encode((if tab then "\t" else " ") + raw)
    case Junk(text) => Encode(text)
  }

  function Written(lines: seq<Line>): Bytes {
    if lines == [] then [] else LineBytes(lines[0]) + CRLF + Written(lines[1..])
  }

  function Message(lines: seq<Line>, body: Bytes): Bytes {
    Written(lines) + (CRLF + body)
  }

  /** Decoding gives well-formed text back. */
  ghost predicate DecodesText(lossy: Bytes -> string) {
    forall s :: lossy(Encode(s)) == s
  }

  // -- what the lines mean

  /** Texts with one blank between each and the next. */
  function Joined(pieces: seq<string>): string {
    if pieces == [] then "" else if |pieces| == 1 then pieces[0] else pieces[0] + " " + Joined(pieces[1..])
  }

  /** The text, unless it is blank. */
  function Piece(raw: string): seq<string> {
    if Trim(raw) == "" then [] else [Trim(raw)]
  }

  /** The continuation texts before the next field. */
  function Folds(lines: seq<Line>): seq<string> {
    if lines == [] || lines[0].Field? then []
    else (if lines[0].Fold? then Piece(lines[0].raw) else []) + Folds(lines[1..])
  }

  /** The headers: one for each field, its name in lower case and its value the pieces of its
      lines, joined by blanks. */
  function Meaning(lines: seq<Line>): seq<Header> {
    if lines == [] then []
    else if lines[0].Field? then
      [Header(Lower(lines[0].name), Joined(Piece(lines[0].raw) + Folds(lines[1..])))] + Meaning(lines[1..])
    else Meaning(lines[1..])
  }

  /** The fields by their first lines alone. */
  function FirstLines(lines: seq<Line>): seq<Header> {
    if lines == [] then []
    else
      (if lines[0].Field? then [Header(Lower(lines[0].name), Trim(lines[0].raw))] else []) + FirstLines(lines[1..])
  }

  // -- one field

  lemma {:induction false} LineEndAt(s: Bytes, i: nat, end: nat)
    requires i < end <= |s| && s[end - 1] == LF
    requires forall j :: i <= j < end - 1 ==> s[j] != LF
    ensures Multipart.LineEnd(s, i) == end
    decreases end - i
  {
    if s[i] != LF {
      LineEndAt(s, i + 1, end);
    }
  }

  predicate StandsAt(s: Bytes, needle: Bytes, i: nat) {
    i + |needle| <= |s| && s[i..i + |needle|] == needle
  }

  lemma {:induction false} FindFirst(s: Bytes, needle: Bytes, i: nat, at: nat)
    requires i <= at && StandsAt(s, needle, at)
    requires forall j :: i <= j < at ==> !StandsAt(s, needle, j)
    ensures Find(s, needle, i) == Some(at)
    decreases at - i
  {
    if i < at {
      assert !StandsAt(s, needle, i);
      FindFirst(s, needle, i + 1, at);
    }
  }

  lemma {:induction false} EncodeHas(s: string, c: char)
    requires c < '\U{80}' && c !in s
    ensures (c as int as byte) !in Encode(s)
  {
    if s != [] {
      EncodeHas(s[1..], c);
      assert s[0] in s;
      LeadOrTail(s[0], c);
      hide EncodeChar;
    }
  }

  lemma LeadOrTail(d: char, c: char)
    requires c < '\U{80}' && c != d
    ensures (c as int as byte) !in EncodeChar(d)
  {
    if d >= '\U{80}' {
      forall i | 0 <= i < |EncodeChar(d)| ensures EncodeChar(d)[i] >= 128 {}
    }
  }

  lemma TrimGraphic(name: string)
    requires name != [] && IsGraphic(name)
    ensures Trim(name) == name && Lower(name) != [] && IsGraphic(Lower(name))
  {
    assert !IsWhitespace(name[0]) && !IsWhitespace(name[|name| - 1]);
    TrimNothing(name, IsWhitespace);
  }

  lemma {:induction false} TrimEndShortens(s: string, p: char -> bool)
    ensures |TrimEndBy(s, p)| <= |s|
  {
    if s != [] && p(s[|s| - 1]) { TrimEndShortens(s[..|s| - 1], p); }
  }

  lemma {:induction false} TrimStartShortens(s: string, p: char -> bool)
    ensures |TrimStartBy(s, p)| <= |s| && (|TrimStartBy(s, p)| == |s| ==> TrimStartBy(s, p) == s)
  {
    if s != [] && p(s[0]) { TrimStartShortens(s[1..], p); }
  }

  lemma TrimLeadingBlank(value: string)
    requires Trim(value) == value
    ensures Trim(" " + value) == value
  {
    TrimStartShortens(value, IsWhitespace);
    TrimEndShortens(TrimStartBy(value, IsWhitespace), IsWhitespace);
    assert (" " + value)[1..] == value && IsWhitespace(' ');
  }

  /** The parts of a field's line. */
  lemma FieldLineShape(name: string, raw: string)
    requires IsLine(Field(name, raw))
    ensures var line, n := LineBytes(Field(name, raw)), |Encode(name)|;
            && LF !in line && 0 < n < |line| && line[0] !in {CR, LF, BLANK, TAB}
            && line[..n] == Encode(name) && line[n + 1..] == Encode(raw)
            && Find(line, [COLON], 0) == Some(n)
  {
    EncodeHas(name, ':');
    EncodeHas(name, '\n');
    EncodeHas(raw, '\n');
    FirstOfName(name);
    var front, text := Encode(name), Encode(raw);
    var line := LineBytes(Field(name, raw));
    hide Encode;
    assert forall j :: 0 <= j < |front| ==> line[j] == front[j] && front[j] in front;
    assert line[|front|] == COLON;
    assert StandsAt(line, [COLON], |front|);
    forall j: nat | j < |front| ensures !StandsAt(line, [COLON], j) {
      assert line[j..j + 1][0] == line[j] && front[j] in front;
    }
    FindFirst(line, [COLON], 0, |front|);
  }

  lemma FirstOfName(name: string)
    requires name != [] && IsGraphic(name)
    ensures Encode(name) != [] && Encode(name)[0] !in {CR, LF, BLANK, TAB}
  {
    assert Encode(name)[0] == EncodeChar(name[0])[0];
  }

  lemma StripsBreak(line: Bytes)
    ensures StripBreak(line + CRLF) == line
  {
    assert (line + CRLF)[..|line| + 1] == line + [CR] && (line + [CR])[..|line|] == line;
  }

  lemma FieldIsAdded(lossy: Bytes -> string, headers: seq<Header>, name: string, raw: string)
    requires DecodesText(lossy) && IsLine(Field(name, raw))
    ensures AddLine(lossy, headers, LineBytes(Field(name, raw)) + CRLF) ==
            Some(headers + [Header(Lower(name), Trim(raw))])
  {
    FieldLineShape(name, raw);
    TrimGraphic(name);
    StripsBreak(LineBytes(Field(name, raw)));
    hide LineBytes, Encode, Find, Trim, IsGraphic, StripBreak;
  }

  lemma TrimAfterBlank(c: char, raw: string)
    requires c == ' ' || c == '\t'
    ensures Trim([c] + raw) == Trim(raw)
  {
    assert ([c] + raw)[1..] == raw && IsWhitespace(c);
  }

  lemma FoldIsAdded(lossy: Bytes -> string, headers: seq<Header>, tab: bool, raw: string)
    requires DecodesText(lossy) && IsLine(Fold(tab, raw))
    ensures AddLine(lossy, headers, LineBytes(Fold(tab, raw)) + CRLF) == Some(Extended(headers, Trim(raw)))
  {
    var c := if tab then '\t' else ' ';
    TrimAfterBlank(c, raw);
    assert (if tab then "\t" else " ") == [c];
    var line := LineBytes(Fold(tab, raw));
    assert line[0] == EncodeChar(c)[0];
    StripsBreak(line);
    hide Encode, Trim, StripBreak, Extended;
  }

  lemma {:induction false} FirstColon(text: string) returns (k: nat)
    requires ':' in text
    ensures k < |text| && text[k] == ':' && ':' !in text[..k]
  {
    k := 0;
    if text[0] != ':' {
      assert text == [text[0]] + text[1..];
      var i := FirstColon(text[1..]);
      k := i + 1;
      assert text[..k] == [text[0]] + text[1..][..i];
    }
  }

  lemma {:induction false} FindNone(s: Bytes, b: byte, i: nat)
    requires b !in s && i <= |s|
    ensures Find(s, [b], i) == None
    decreases |s| - i
  {
    if i + 1 <= |s| {
      assert s[i..i + 1][0] == s[i];
      FindNone(s, b, i + 1);
    }
  }

  lemma LowerKeeps(name: string)
    ensures Lower(name) == [] <==> name == []
    ensures IsGraphic(Lower(name)) <==> IsGraphic(name)
  {
    forall i | 0 <= i < |name| ensures '!' <= Lower(name)[i] <= '~' <==> '!' <= name[i] <= '~' {}
    if IsGraphic(Lower(name)) {
      forall i | 0 <= i < |name| ensures '!' <= name[i] <= '~' { assert '!' <= Lower(name)[i] <= '~'; }
    }
  }

  lemma {:induction false} TrimIsPart(s: string, c: char)
    requires c !in s
    ensures c !in Trim(s)
  {
    TrimStartIsPart(s, c);
    TrimEndIsPart(TrimStartBy(s, IsWhitespace), c);
  }

  lemma {:induction false} TrimStartIsPart(s: string, c: char)
    requires c !in s
    ensures c !in TrimStartBy(s, IsWhitespace)
  {
    if s != [] && IsWhitespace(s[0]) { TrimStartIsPart(s[1..], c); }
  }

  lemma {:induction false} TrimEndIsPart(s: string, c: char)
    requires c !in s
    ensures c !in TrimEndBy(s, IsWhitespace)
  {
    if s != [] && IsWhitespace(s[|s| - 1]) { TrimEndIsPart(s[..|s| - 1], c); }
  }

  /** Where the first colon of a text stands in its bytes. */
  lemma ColonInBytes(text: string, k: nat)
    requires k < |text| && text[k] == ':' && ':' !in text[..k]
    ensures var n := |Encode(text[..k])|;
            Find(Encode(text), [COLON], 0) == Some(n) && Encode(text)[..n] == Encode(text[..k])
  {
    var front, rest := text[..k], text[k + 1..];
    assert text == front + (":" + rest);
    EncodeConcat(front, ":" + rest);
    EncodeConcat(":", rest);
    ColonByte();
    EncodeHas(front, ':');
    var line, before := Encode(text), Encode(front);
    hide Encode;
    assert line == before + ([COLON] + Encode(rest));
    assert StandsAt(line, [COLON], |before|);
    forall j: nat | j < |before| ensures !StandsAt(line, [COLON], j) {
      assert line[j..j + 1][0] == before[j] && before[j] in before;
    }
    FindFirst(line, [COLON], 0, |before|);
  }

  lemma ColonByte()
    ensures Encode(":") == [COLON]
  {
    EncodeAscii(":");
  }

  lemma FirstByteOf(text: string)
    requires text != []
    ensures Encode(text) != [] && (Encode(text)[0] == BLANK ==> text[0] == ' ')
    ensures Encode(text)[0] == TAB ==> text[0] == '\t'
  {
    assert Encode(text)[0] == EncodeChar(text[0])[0];
  }

  lemma JunkIsSkipped(lossy: Bytes -> string, headers: seq<Header>, text: string)
    requires DecodesText(lossy) && IsLine(Junk(text))
    ensures AddLine(lossy, headers, LineBytes(Junk(text)) + CRLF) == Some(headers)
  {
    var line := Encode(text);
    StripsBreak(line);
    FirstByteOf(text);
    if ':' in text {
      var k := FirstColon(text);
      ColonInBytes(text, k);
      LowerKeeps(Trim(text[..k]));
      TrimIsPart(text[..k], ':');
    } else {
      EncodeHas(text, ':');
      FindNone(line, COLON, 0);
    }
    hide Encode, Find, Trim, IsGraphic, StripBreak, Lower;
  }

  lemma LineHasNoLf(l: Line)
    requires IsLine(l)
    ensures LineBytes(l) != [] && LF !in LineBytes(l)
  {
    match l
    case Field(name, raw) => FieldLineShape(name, raw);
    case Fold(tab, raw) =>
      FirstByteOf((if tab then "\t" else " ") + raw);
      EncodeHas((if tab then "\t" else " ") + raw, '\n');
    case Junk(text) =>
      FirstByteOf(text);
      EncodeHas(text, '\n');
  }

  lemma BreakEnds(line: Bytes, rest: Bytes)
    requires LF !in line
    ensures var raw := line + CRLF;
            && Multipart.LineEnd(raw + rest, 0) == |raw|
            && (raw + rest)[..|raw|] == raw && (raw + rest)[|raw|..] == rest
  {
    hide Multipart.LineEnd;
    var all := line + CRLF + rest;
    forall j | 0 <= j < |line| + 1 ensures all[j] != LF {
      if j < |line| { assert all[j] == line[j] && line[j] in line; }
    }
    LineEndAt(all, 0, |line| + 2);
  }

  // -- all lines

  function After(headers: seq<Header>, l: Line): seq<Header> {
    match l
    case Field(name, raw) => headers + [Header(Lower(name), Trim(raw))]
    case Fold(_, raw) => Extended(headers, Trim(raw))
    case Junk(_) => headers
  }

  /** The headers after one line, as long as there is room. */
  lemma OneLineAdded(lossy: Bytes -> string, headers: seq<Header>, l: Line, rest: Bytes)
    requires DecodesText(lossy) && IsLine(l) && |headers| < MAX_HEADER_LINES
    ensures AddLines(lossy, headers, LineBytes(l) + CRLF + rest) == AddLines(lossy, After(headers, l), rest)
  {
    LineHasNoLf(l);
    BreakEnds(LineBytes(l), rest);
    match l {
      case Field(name, raw) => FieldIsAdded(lossy, headers, name, raw);
      case Fold(tab, raw) => FoldIsAdded(lossy, headers, tab, raw);
      case Junk(text) => JunkIsSkipped(lossy, headers, text);
    }
    hide AddLine, LineBytes, Multipart.LineEnd, IsLine, Extended, Trim, Lower;
  }

  /** The headers read so far, the last of them with more text still to come. */
  function Continued(headers: seq<Header>, folds: seq<string>): seq<Header> {
    if headers == [] then []
    else
      var front, last := headers[..|headers| - 1], headers[|headers| - 1];
      front + [last.(value := Joined((if last.value == "" then [] else [last.value]) + folds))]
  }

  lemma NothingContinued(headers: seq<Header>)
    ensures Continued(headers, []) == headers
  {
    if headers != [] {
      var front, last := headers[..|headers| - 1], headers[|headers| - 1];
      assert headers == front + [last];
      assert (if last.value == "" then [] else [last.value]) + [] == if last.value == "" then [] else [last.value];
    }
  }

  /** Adding a continuation now or with the rest makes no difference. */
  lemma ContinuedByOne(headers: seq<Header>, raw: string, folds: seq<string>)
    ensures Continued(Extended(headers, Trim(raw)), folds) == Continued(headers, Piece(raw) + folds)
    ensures |Extended(headers, Trim(raw))| == |headers|
  {
    hide Trim;
    var text := Trim(raw);
    if headers == [] || text == [] {
      assert Piece(raw) + folds == folds || headers == [];
    } else {
      var front, last := headers[..|headers| - 1], headers[|headers| - 1];
      if last.value == [] {
        assert Extended(headers, text) == front + [last.(value := text)];
        assert [] + (Piece(raw) + folds) == [text] + folds;
      } else {
        JoinTwo(last.value, text, folds);
        assert Extended(headers, text) == front + [last.(value := last.value + " " + text)];
        assert [last.value] + (Piece(raw) + folds) == [last.value, text] + folds;
      }
    }
  }

  lemma JoinTwo(a: string, b: string, more: seq<string>)
    ensures Joined([a, b] + more) == Joined([a + " " + b] + more)
  {
    assert ([a, b] + more)[1..] == [b] + more;
    assert ([a + " " + b] + more)[1..] == more;
    if more != [] {
      assert ([b] + more)[1..] == more;
      BlankBetween(a, b, Joined(more));
    }
  }

  lemma BlankBetween(a: string, b: string, c: string)
    ensures a + " " + (b + " " + c) == a + " " + b + " " + c
  {}

  lemma Unfolds(lines: seq<Line>)
    requires lines != [] && AreLines(lines)
    ensures AreLines(lines[1..]) && IsLine(lines[0])
    ensures Written(lines) == LineBytes(lines[0]) + CRLF + Written(lines[1..])
    ensures match lines[0]
            case Field(name, raw) =>
              && Folds(lines) == []
              && Meaning(lines) == [Header(Lower(name), Joined(Piece(raw) + Folds(lines[1..])))] + Meaning(lines[1..])
              && FirstLines(lines) == [Header(Lower(name), Trim(raw))] + FirstLines(lines[1..])
            case Fold(_, raw) =>
              && Folds(lines) == Piece(raw) + Folds(lines[1..])
              && Meaning(lines) == Meaning(lines[1..]) && FirstLines(lines) == FirstLines(lines[1..])
            case Junk(_) =>
              && Folds(lines) == Folds(lines[1..])
              && Meaning(lines) == Meaning(lines[1..]) && FirstLines(lines) == FirstLines(lines[1..])
  {
    hide LineBytes, IsLine, Lower, Trim, Joined, Piece;
    assert [] + Folds(lines[1..]) == Folds(lines[1..]) && [] + FirstLines(lines[1..]) == FirstLines(lines[1..]);
  }

  lemma NoLinesMean()
    ensures Written([]) == [] && Folds([]) == [] && Meaning([]) == [] && FirstLines([]) == []
  {}

  lemma NothingAdded(lossy: Bytes -> string, headers: seq<Header>, block: Bytes)
    requires block == [] || |headers| >= MAX_HEADER_LINES
    ensures AddLines(lossy, headers, block) == headers
  {}

  lemma AfterIs(headers: seq<Header>, l: Line)
    ensures match l
            case Field(name, raw) => After(headers, l) == headers + [Header(Lower(name), Trim(raw))]
            case Fold(_, raw) => After(headers, l) == Extended(headers, Trim(raw))
            case Junk(_) => After(headers, l) == headers
  {
    hide Extended, Trim, Lower;
  }

  /** A header block with fewer fields than the limit: the pending header gets its
      continuations, and every field of the rest follows. */
  lemma {:induction false} LinesAreAdded(lossy: Bytes -> string, headers: seq<Header>, lines: seq<Line>)
    requires DecodesText(lossy) && AreLines(lines) && |headers| + |Meaning(lines)| < MAX_HEADER_LINES
    ensures AddLines(lossy, headers, Written(lines)) == Continued(headers, Folds(lines)) + Meaning(lines)
    decreases |lines|
  {
    hide *;
    if lines == [] {
      NoLinesMean();
      NothingContinued(headers);
      NothingAdded(lossy, headers, []);
      assert headers + [] == headers;
    } else {
      var l, rest := lines[0], lines[1..];
      Unfolds(lines);
      AfterIs(headers, l);
      OneLineAdded(lossy, headers, l, Written(rest));
      match l {
        case Field(name, raw) =>
          LinesAreAdded(lossy, headers + [Header(Lower(name), Trim(raw))], rest);
          FieldStarts(headers, lines);
        case Fold(_, raw) =>
          ContinuedByOne(headers, raw, Folds(rest));
          LinesAreAdded(lossy, Extended(headers, Trim(raw)), rest);
        case Junk(_) =>
          LinesAreAdded(lossy, headers, rest);
      }
    }
  }

  lemma ContinuedLast(headers: seq<Header>, name: string, raw: string, folds: seq<string>)
    ensures Continued(headers + [Header(name, Trim(raw))], folds)
            == headers + [Header(name, Joined(Piece(raw) + folds))]
  {
    hide Trim, Joined;
    assert (headers + [Header(name, Trim(raw))])[..|headers|] == headers;
  }

  lemma FieldStarts(headers: seq<Header>, lines: seq<Line>)
    requires lines != [] && lines[0].Field? && AreLines(lines)
    ensures var h := Header(Lower(lines[0].name), Trim(lines[0].raw));
            Continued(headers + [h], Folds(lines[1..])) + Meaning(lines[1..])
            == Continued(headers, Folds(lines)) + Meaning(lines)
  {
    hide *;
    Unfolds(lines);
    NothingContinued(headers);
    ContinuedLast(headers, Lower(lines[0].name), lines[0].raw, Folds(lines[1..]));
    var folded := Header(Lower(lines[0].name), Joined(Piece(lines[0].raw) + Folds(lines[1..])));
    SeqAssoc(headers, [folded], Meaning(lines[1..]));
  }

  lemma SeqAssoc<T>(a: seq<T>, b: seq<T>, c: seq<T>)
    ensures a + b + c == a + (b + c)
  {}

  lemma {:induction false} SameCount(lines: seq<Line>)
    ensures |FirstLines(lines)| == |Meaning(lines)|
  {
    if lines != [] { SameCount(lines[1..]); }
    hide Trim, Lower, Joined, Piece, Folds;
  }

  /** A header block that reaches the limit: reading stops at the first line of the last field,
      whose continuations are lost. */
  lemma {:induction false} LinesReachLimit(lossy: Bytes -> string, headers: seq<Header>, lines: seq<Line>)
    requires DecodesText(lossy) && AreLines(lines)
    requires |headers| < MAX_HEADER_LINES <= |headers| + |Meaning(lines)|
    ensures |FirstLines(lines)| == |Meaning(lines)|
    ensures var n := MAX_HEADER_LINES - |headers| - 1;
            AddLines(lossy, headers, Written(lines)) ==
            Continued(headers, Folds(lines)) + Meaning(lines)[..n] + [FirstLines(lines)[n]]
    decreases |lines|
  {
    hide *;
    SameCount(lines);
    if lines == [] {
      NoLinesMean();
    } else {
      var l, rest := lines[0], lines[1..];
      Unfolds(lines);
      AfterIs(headers, l);
      OneLineAdded(lossy, headers, l, Written(rest));
      match l {
        case Field(name, raw) =>
          var h := Header(Lower(name), Trim(raw));
          if |headers| + 1 == MAX_HEADER_LINES {
            NothingContinued(headers);
            NothingAdded(lossy, headers + [h], Written(rest));
            assert Meaning(lines)[..0] == [] && headers + [] == headers;
          } else {
            LinesReachLimit(lossy, headers + [h], rest);
            LimitAfterField(headers, lines, MAX_HEADER_LINES - |headers| - 1);
          }
        case Fold(_, raw) =>
          ContinuedByOne(headers, raw, Folds(rest));
          LinesReachLimit(lossy, Extended(headers, Trim(raw)), rest);
        case Junk(_) =>
          LinesReachLimit(lossy, headers, rest);
      }
    }
  }

  lemma LimitAfterField(headers: seq<Header>, lines: seq<Line>, n: nat)
    requires lines != [] && lines[0].Field? && AreLines(lines) && 0 < n < |Meaning(lines)| == |FirstLines(lines)|
    ensures |FirstLines(lines[1..])| == |Meaning(lines[1..])| == |Meaning(lines)| - 1
    ensures var h := Header(Lower(lines[0].name), Trim(lines[0].raw));
            && FirstLines(lines)[n] == FirstLines(lines[1..])[n - 1]
            && Continued(headers + [h], Folds(lines[1..])) + Meaning(lines[1..])[..n - 1]
               == Continued(headers, Folds(lines)) + Meaning(lines)[..n]
  {
    hide *;
    Unfolds(lines);
    SameCount(lines[1..]);
    FieldStarts(headers, lines);
    var h := Header(Lower(lines[0].name), Trim(lines[0].raw));
    ContinuedLength(headers + [h], Folds(lines[1..]));
    ContinuedLength(headers, Folds(lines));
    SameStart(Continued(headers + [h], Folds(lines[1..])), Meaning(lines[1..]),
              Continued(headers, Folds(lines)), Meaning(lines), n);
  }

  lemma SameStart<T>(a: seq<T>, b: seq<T>, c: seq<T>, d: seq<T>, n: nat)
    requires a + b == c + d && |a| == |c| + 1 && 0 < n <= |d|
    ensures n - 1 <= |b| && a + b[..n - 1] == c + d[..n]
  {
    assert (a + b)[..|a| + (n - 1)] == a + b[..n - 1];
    assert (c + d)[..|c| + n] == c + d[..n];
  }

  lemma ContinuedLength(headers: seq<Header>, folds: seq<string>)
    ensures |Continued(headers, folds)| == |headers|
  {
    hide Joined;
  }

  // -- where the block ends

  lemma NotThere(s: Bytes, j: nat)
    requires j + 3 < |s| ==> s[j] != CR || s[j + 1] != LF || s[j + 3] != LF
    ensures !StandsAt(s, BLANK_LINE, j)
  {
    if j + 3 < |s| {
      var window := s[j..j + 4];
      assert s[j] == window[0] && s[j + 1] == window[1] && s[j + 3] == window[3];
    }
  }

  lemma MessageSplits(lines: seq<Line>, body: Bytes)
    requires lines != []
    ensures Message(lines, body) == LineBytes(lines[0]) + CRLF + Message(lines[1..], body)
    ensures |Written(lines)| == |LineBytes(lines[0])| + 2 + |Written(lines[1..])|
  {
    hide LineBytes;
    var line, more := LineBytes(lines[0]), Written(lines[1..]);
    assert Written(lines) == line + CRLF + more;
    hide Written;
    Regrouped(line + CRLF, more, CRLF + body);
  }

  lemma Regrouped(a: Bytes, b: Bytes, c: Bytes)
    ensures a + b + c == a + (b + c)
  {}

  /** The second byte of written lines is no LF, since no line is empty. */
  lemma SecondByte(lines: seq<Line>, body: Bytes)
    requires AreLines(lines)
    ensures |Message(lines, body)| >= 2 && (lines != [] ==> Message(lines, body)[1] != LF)
  {
    if lines != [] {
      MessageSplits(lines, body);
      LineHasNoLf(lines[0]);
      var line := LineBytes(lines[0]);
      hide LineBytes, Message;
      if |line| > 1 { assert Message(lines, body)[1] == line[1] && line[1] in line; }
    }
  }

  /** No blank line before the end of the written lines. */
  lemma {:induction false} NoBlankLine(lines: seq<Line>, body: Bytes, j: nat)
    requires lines != [] && AreLines(lines) && j + 2 < |Written(lines)|
    ensures !StandsAt(Message(lines, body), BLANK_LINE, j)
    decreases |lines|
  {
    var line, rest := LineBytes(lines[0]), lines[1..];
    var all, more := Message(lines, body), Message(rest, body);
    LineHasNoLf(lines[0]);
    assert AreLines(rest);
    SecondByte(rest, body);
    MessageSplits(lines, body);
    if j >= |line| + 2 {
      NoBlankLine(rest, body, j - |line| - 2);
      hide LineBytes, Written, Message;
      SameWindow(line + CRLF, more, j);
    } else {
      assert lines[1..] == [] ==> |Written(lines)| == |line| + 2;
      hide LineBytes, Message, Written;
      InFirstLine(line, more, j, rest == []);
    }
  }

  lemma InFirstLine(line: Bytes, more: Bytes, j: nat, last: bool)
    requires line != [] && LF !in line && |more| >= 2 && j < |line| + 2
    requires if last then j < |line| else more[1] != LF
    ensures !StandsAt(line + CRLF + more, BLANK_LINE, j)
  {
    var all := line + CRLF + more;
    if j + 1 < |line| { assert all[j + 1] == line[j + 1] && line[j + 1] in line; }
    NotThere(all, j);
  }

  lemma SameWindow(front: Bytes, rest: Bytes, j: nat)
    requires |front| <= j && !StandsAt(rest, BLANK_LINE, j - |front|)
    ensures !StandsAt(front + rest, BLANK_LINE, j)
  {
    if j + 4 <= |front + rest| {
      assert rest[j - |front|..j - |front| + 4] == (front + rest)[j..j + 4];
    }
  }

  lemma {:induction false} FindsNothing(s: Bytes, needle: Bytes, i: nat)
    requires forall j: nat :: i <= j ==> !StandsAt(s, needle, j)
    ensures Find(s, needle, i) == None
    decreases if i <= |s| then |s| - i else 0
  {
    assert !StandsAt(s, needle, i);
    if i + |needle| <= |s| && i < |s| { FindsNothing(s, needle, i + 1); }
  }

  /** A message is cut at its first CR LF CR LF or, without one, at its first LF LF; the header
      block keeps its last line break. */
  lemma SplitsAtBlankLine(message: Bytes, at: nat)
    ensures StandsAt(message, [13, 10, 13, 10], at)
            && (forall j: nat :: j < at ==> !StandsAt(message, [13, 10, 13, 10], j)) ==>
              HeaderBytes(message) == message[..at + 2] && BodyOf(message) == message[at + 4..]
    ensures (forall j: nat :: !StandsAt(message, [13, 10, 13, 10], j)) && StandsAt(message, [10, 10], at)
            && (forall j: nat :: j < at ==> !StandsAt(message, [10, 10], j)) ==>
              HeaderBytes(message) == message[..at + 1] && BodyOf(message) == message[at + 2..]
    ensures (forall j: nat :: !StandsAt(message, [13, 10, 13, 10], j) && !StandsAt(message, [10, 10], j)) ==>
              HeaderBytes(message) == message && BodyOf(message) == []
  {
    if StandsAt(message, BLANK_LINE, at) && (forall j: nat :: j < at ==> !StandsAt(message, BLANK_LINE, j)) {
      FindFirst(message, BLANK_LINE, 0, at);
    }
    if forall j: nat :: !StandsAt(message, BLANK_LINE, j) { FindsNothing(message, BLANK_LINE, 0); }
    if StandsAt(message, [LF, LF], at) && (forall j: nat :: j < at ==> !StandsAt(message, [LF, LF], j)) {
      FindFirst(message, [LF, LF], 0, at);
    }
    if forall j: nat :: !StandsAt(message, [LF, LF], j) { FindsNothing(message, [LF, LF], 0); }
    hide Find;
  }

  /** The written lines are the header block, and what follows the blank line the body. */
  lemma BlockEnds(lines: seq<Line>, body: Bytes)
    requires lines != [] && AreLines(lines)
    ensures HeaderBytes(Message(lines, body)) == Written(lines) && BodyOf(Message(lines, body)) == body
  {
    assert BLANK_LINE == [13, 10, 13, 10];
    hide *;
    var all, n := Message(lines, body), |Written(lines)|;
    EndsWithBreak(lines);
    MessageIs(lines, body);
    BlankLineStands(Written(lines), body);
    forall j: nat | j < n - 2 ensures !StandsAt(all, [13, 10, 13, 10], j) {
      NoBlankLine(lines, body, j);
    }
    SplitsAtBlankLine(all, n - 2);
  }

  lemma MessageIs(lines: seq<Line>, body: Bytes)
    ensures Message(lines, body) == Written(lines) + (CRLF + body)
  {
    hide Written;
  }

  lemma BlankLineStands(block: Bytes, body: Bytes)
    requires |block| >= 2 && block[|block| - 2..] == CRLF
    ensures var all, n := block + (CRLF + body), |block|;
            StandsAt(all, [13, 10, 13, 10], n - 2) && all[..n - 2 + 2] == block && all[n - 2 + 4..] == body
  {
    var all, n := block + (CRLF + body), |block|;
    assert all[n - 2..n + 2] == block[n - 2..] + CRLF;
  }

  lemma {:induction false} EndsWithBreak(lines: seq<Line>)
    requires lines != []
    ensures |Written(lines)| >= 2 && Written(lines)[|Written(lines)| - 2..] == CRLF
  {
    hide LineBytes;
    var front, rest := LineBytes(lines[0]) + CRLF, Written(lines[1..]);
    if |lines| > 1 {
      EndsWithBreak(lines[1..]);
      assert (front + rest)[|front + rest| - 2..] == rest[|rest| - 2..];
    } else {
      assert front + rest == front && front[|front| - 2..] == CRLF;
    }
  }

  /** Without lines the block starts with its end. */
  lemma NoLines(lossy: Bytes -> string, body: Bytes)
    ensures ParseHeaders(lossy, Message([], body)) == []
  {
    var all := Message([], body);
    assert all == CRLF + body;
    var block := Clip(HeaderBytes(all));
    StartsWithBreak(all);
    hide Clip, HeaderBytes, Find;
    assert block[0] == CR && block[1] == LF;
    LineEndAt(block, 0, 2);
    assert block[..2] == CRLF && StripBreak(CRLF) == [];
  }

  lemma StartsWithBreak(message: Bytes)
    requires |message| >= 2 && message[..2] == CRLF
    ensures var block := Clip(HeaderBytes(message)); |block| >= 2 && block[..2] == CRLF
  {
    var lf := Find(message, [LF, LF], 0);
    assert message[..2][0] == message[0];
    if lf == Some(0) { FoundStands(message, [LF, LF], 0); }
  }

  lemma {:induction false} FoundStands(s: Bytes, needle: Bytes, i: nat)
    requires Find(s, needle, i).Some?
    ensures i <= Find(s, needle, i).value && StandsAt(s, needle, Find(s, needle, i).value)
    decreases |s| - i
  {
    if !StandsAt(s, needle, i) { FoundStands(s, needle, i + 1); }
  }

  /** Any header block of at most 1 MiB, written with any body, is read back: each field once,
      its name in lower case, the texts of its lines joined by blanks; continuations before
      the first field, blank ones and junk lines change nothing; and the body is found. From
      2,000 fields on, the headers end with the first line of the 2,000th. */
  lemma WrittenLinesRead(lossy: Bytes -> string, lines: seq<Line>, body: Bytes)
    requires DecodesText(lossy) && AreLines(lines) && |Written(lines)| <= 1048576
    ensures |FirstLines(lines)| == |Meaning(lines)|
    ensures ParseHeaders(lossy, Message(lines, body)) ==
            if |Meaning(lines)| < 2000 then Meaning(lines) else Meaning(lines)[..1999] + [FirstLines(lines)[1999]]
    ensures lines != [] ==> BodyOf(Message(lines, body)) == body
  {
    assert MAX_HEADER_LINES == 2000 && MAX_HEADER_BYTES == 1048576;
    hide *;
    SameCount(lines);
    if lines == [] {
      NoLines(lossy, body);
      NoLinesMean();
    } else {
      BlockEnds(lines, body);
      BlockIsParsed(lossy, Message(lines, body), Written(lines));
      if |Meaning(lines)| < 2000 {
        AllAreAdded(lossy, lines);
      } else {
        LimitIsReached(lossy, lines);
      }
    }
  }

  lemma AllAreAdded(lossy: Bytes -> string, lines: seq<Line>)
    requires DecodesText(lossy) && AreLines(lines) && |Meaning(lines)| < MAX_HEADER_LINES
    ensures AddLines(lossy, [], Written(lines)) == Meaning(lines)
  {
    hide *;
    LinesAreAdded(lossy, [], lines);
    ContinuedLength([], Folds(lines));
    NothingInFront(Continued([], Folds(lines)), Meaning(lines));
  }

  lemma LimitIsReached(lossy: Bytes -> string, lines: seq<Line>)
    requires DecodesText(lossy) && AreLines(lines) && 2000 == MAX_HEADER_LINES <= |Meaning(lines)|
    ensures |FirstLines(lines)| == |Meaning(lines)|
    ensures AddLines(lossy, [], Written(lines)) == Meaning(lines)[..1999] + [FirstLines(lines)[1999]]
  {
    hide *;
    LinesReachLimit(lossy, [], lines);
    ContinuedLength([], Folds(lines));
    NothingInFront(Continued([], Folds(lines)), Meaning(lines)[..1999]);
  }

  lemma NothingInFront<T>(front: seq<T>, s: seq<T>)
    requires |front| == 0
    ensures front + s == s
  {}

  lemma BlockIsParsed(lossy: Bytes -> string, message: Bytes, block: Bytes)
    requires HeaderBytes(message) == block && |block| <= MAX_HEADER_BYTES
    ensures ParseHeaders(lossy, message) == AddLines(lossy, [], block)
  {
    hide AddLines, HeaderBytes;
  }

  // ---------------------------------------------------------------- NUL in a received message

  /** A message with this description and no other field is answered with a BODYSTRUCTURE
      that a strict reader refuses if and only if the description holds U+0000. */
  lemma DescriptionReads(p: Parsers, lossy: Bytes -> string, name: string, raw: string, body: Bytes)
    requires DecodesText(lossy) && (forall m :: p.headers(m) == ParseHeaders(lossy, m))
    requires p.contentType(None) == PLAIN
    requires EqIgnoreCase(name, "content-description") && '\n' !in raw && |Written([Field(name, raw)])| <= 1048576
    ensures var message := Message([Field(name, raw)], body);
            ReadNode(Encode(PartText(p, message, 0))) == Bad <==> '\0' in raw
  {
    var line := Field(name, raw);
    var message := Message([line], body);
    NameIsDescription(name);
    WrittenLinesRead(lossy, [line], body);
    OneFieldMeans(name, raw);
    TrimKeeps(raw, '\0');
    hide ParseHeaders, Message, Written, DecodesText, IsName, Meaning, Trim, Lower;
    DescriptionOnly(p, message, Trim(raw));
    BodyStructureReads(p, message);
  }

  lemma OneFieldMeans(name: string, raw: string)
    ensures Meaning([Field(name, raw)]) == [Header(Lower(name), Trim(raw))]
  {
    hide Trim, Lower;
    var lines := [Field(name, raw)];
    assert lines[1..] == [] && Piece(raw) + [] == Piece(raw);
    assert Meaning(lines) == [Header(Lower(name), Joined(Piece(raw)))] + [];
  }

  lemma TrimKeeps(s: string, c: char)
    requires !IsWhitespace(c)
    ensures c in Trim(s) <==> c in s
  {
    if c !in s { TrimIsPart(s, c); }
    if c in s {
      TrimStartKeeps(s, c);
      TrimEndKeeps(TrimStartBy(s, IsWhitespace), c);
    }
  }

  lemma {:induction false} TrimStartKeeps(s: string, c: char)
    requires !IsWhitespace(c) && c in s
    ensures c in TrimStartBy(s, IsWhitespace)
  {
    if IsWhitespace(s[0]) {
      assert s == [s[0]] + s[1..];
      TrimStartKeeps(s[1..], c);
    }
  }

  lemma {:induction false} TrimEndKeeps(s: string, c: char)
    requires !IsWhitespace(c) && c in s
    ensures c in TrimEndBy(s, IsWhitespace)
  {
    if IsWhitespace(s[|s| - 1]) {
      assert s == s[..|s| - 1] + [s[|s| - 1]];
      TrimEndKeeps(s[..|s| - 1], c);
    }
  }

  const DESCRIPTION := "content-description"
  const PLAIN := ContentType("text", "plain", [])

  lemma NameIsDescription(name: string)
    requires EqIgnoreCase(name, DESCRIPTION)
    ensures IsName(name) && Lower(name) == DESCRIPTION
  {
    forall i | 0 <= i < |name| ensures '!' <= name[i] <= '~' && name[i] != ':' && Lower(name)[i] == DESCRIPTION[i] {
      assert AsciiLower(name[i]) == AsciiLower(DESCRIPTION[i]);
      DescriptionChar(i);
    }
  }

  lemma DescriptionChar(i: nat)
    requires i < |DESCRIPTION|
    ensures 'a' <= DESCRIPTION[i] <= 'z' || DESCRIPTION[i] == '-'
  {}

  lemma DescriptionOnly(p: Parsers, message: Bytes, text: string)
    requires p.headers(message) == [Header(DESCRIPTION, text)] && p.contentType(None) == PLAIN
    ensures PartNulFree(p, message, 0) <==> '\0' !in text
  {
    var h := p.headers(message);
    hide BodyOf, PartsOf, LineCount;
    assert Get(h, "content-type") == None;
    assert EffectiveType(p, message, 0) == PLAIN;
    assert Get(h, "content-id") == None && Get(h, DESCRIPTION) == Some(text);
    assert Get(h, "content-transfer-encoding") == None;
    assert Encoding(h) == "7BIT";
    NoNulIn7Bit();
  }

  lemma NoNulIn7Bit()
    ensures NulFree("7BIT") && NulFree("text") && NulFree("plain")
  {}

  /** A decoder that gives well-formed text back, and nothing for other bytes. */
  ghost function Decode(b: Bytes): string {
    if s :| Encode(s) == b then s else ""
  }

  lemma DecodeInverts()
    ensures DecodesText(Decode)
  {
    forall s ensures Decode(Encode(s)) == s {
      forall t | Encode(t) == Encode(s) ensures t == s { EncodeInjective(t, s); }
    }
  }

  const NAME := "Content-Description"
  const TEXT := " a\0b"

  lemma AsciiBytes(s: string, b: Bytes)
    requires IsAscii(s) && |s| == |b| && forall i :: 0 <= i < |s| ==> s[i] as int as byte == b[i]
    ensures Encode(s) == b
  {
    EncodeAscii(s);
    hide Encode;
  }

  lemma OneFieldMessage(name: string, raw: string)
    ensures Message([Field(name, raw)], []) == Encode(name + (":" + (raw + "\r\n\r\n")))
  {
    var end := "\r\n\r\n";
    OneFieldBytes(name, raw);
    ColonByte();
    AsciiBytes(end, BLANK_LINE);
    hide *;
    EncodeConcat(name, ":" + (raw + end));
    EncodeConcat(":", raw + end);
    EncodeConcat(raw, end);
    EndOfMessage(Encode(name), Encode(raw));
  }

  lemma OneFieldLength(name: string, raw: string)
    requires IsAscii(name) && IsAscii(raw)
    ensures |Written([Field(name, raw)])| == |name| + |raw| + 3
  {
    OneFieldBytes(name, raw);
    assert |CRLF| == 2;
    hide *;
    EncodeAscii(name);
    EncodeAscii(raw);
  }

  lemma EndOfMessage(name: Bytes, text: Bytes)
    ensures name + ([COLON] + text) + CRLF + (CRLF + []) == name + ([COLON] + (text + BLANK_LINE))
  {}

  lemma OneFieldBytes(name: string, raw: string)
    ensures Written([Field(name, raw)]) == Encode(name) + ([COLON] + Encode(raw)) + CRLF
    ensures Message([Field(name, raw)], []) == Written([Field(name, raw)]) + (CRLF + [])
  {
    hide Encode;
    var l := Field(name, raw);
    assert Written([l][1..]) == [];
    assert LineBytes(l) + CRLF + [] == LineBytes(l) + CRLF;
  }

  lemma NulText()
    ensures NAME + (":" + (TEXT + "\r\n\r\n")) == "Content-Description: a\0b\r\n\r\n"
    ensures IsAscii(NAME) && IsAscii(TEXT) && |NAME| + |TEXT| + 3 <= 1048576
    ensures EqIgnoreCase(NAME, "content-description") && '\n' !in TEXT && '\0' in TEXT
  {
    assert TEXT[2] == '\0';
  }

  /** A description of three characters, the middle one U+0000: the message is read, and its
      answer refused. */
  lemma NulMessageExists()
    ensures exists p: Parsers, message ::
              && (forall m :: p.headers(m) == ParseHeaders(Decode, m)) && p.contentType(None) == PLAIN
              && message == Encode("Content-Description: a\0b\r\n\r\n")
              && ReadNode(Encode(PartText(p, message, 0))) == Bad
  {
    hide *;
    var p := Parsers(m => ParseHeaders(Decode, m), _ => [], _ => PLAIN);
    var message := Message([Field(NAME, TEXT)], []);
    OneFieldMessage(NAME, TEXT);
    NulText();
    OneFieldLength(NAME, TEXT);
    DecodeInverts();
    DescriptionReads(p, Decode, NAME, TEXT, []);
  }
}
