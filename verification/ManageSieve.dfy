/** Arguments of a ManageSieve command line: quoting a string and splitting a line. */
module ManageSieve {
  import opened Common

  predicate IsBlank(c: char) {
    c == ' ' || c == '\t'
  }

  predicate Blanks(s: string) {
    forall i :: 0 <= i < |s| ==> s[i] == ' ' || s[i] == '\t'
  }

  // ---------------------------------------------------------------- what a line means

  function SkipBlanks(s: string): (r: string)
    ensures |r| <= |s| && (r != [] ==> !IsBlank(r[0]))
  {
    if s != [] && IsBlank(s[0]) then SkipBlanks(s[1..]) else s
  }

  /** `more` put in front of what has been read. */
  function Onto(more: string, read: Option<(string, string)>): Option<(string, string)> {
    if read.None? then None else Some((more + read.value.0, read.value.1))
  }

  /** The value of a quoted string after its opening quote, and what follows the closing one.
      A backslash before anything but a quote or a backslash stands for itself. */
  function QuotedValue(s: string): (r: Option<(string, string)>)
    ensures r.Some? ==> |r.value.1| < |s|
  {
    if s == [] then None
    else if s[0] == '"' then Some(("", s[1..]))
    else if s[0] != '\\' then Onto([s[0]], QuotedValue(s[1..]))
    else if |s| == 1 then None
    else if s[1] == '"' || s[1] == '\\' then Onto([s[1]], QuotedValue(s[2..]))
    else Onto(['\\', s[1]], QuotedValue(s[2..]))
  }

  /** A bare word: everything up to the next blank. */
  function WordLength(s: string): (n: nat)
    ensures n <= |s|
    ensures s != [] && !IsBlank(s[0]) ==> n > 0
  {
    if s == [] || IsBlank(s[0]) then 0 else 1 + WordLength(s[1..])
  }

  function Before(front: seq<string>, more: Result<seq<string>>): Result<seq<string>> {
    if more.Err? then Err else Ok(front + more.value)
  }

  /** The arguments on a line; an error when a quoted string is not closed. */
  function Arguments(line: string): Result<seq<string>>
    decreases |line|
  {
    var s := SkipBlanks(line);
    if s == [] then Ok([])
    else if s[0] == '"' then
      match QuotedValue(s[1..])
      case None => Err
      case Some((value, rest)) => Before([value], Arguments(rest))
    else
      var n := WordLength(s);
      Before([s[..n]], Arguments(s[n..]))
  }

  // ---------------------------------------------------------------- the loops

  lemma OntoTwice(a: string, b: string, r: Option<(string, string)>)
    ensures Onto(a, Onto(b, r)) == Onto(a + b, r)
  {
    if r.Some? {
      assert a + (b + r.value.0) == (a + b) + r.value.0;
    }
  }

  lemma BeforeTwice(a: seq<string>, b: seq<string>, r: Result<seq<string>>)
    ensures Before(a, Before(b, r)) == Before(a + b, r)
  {
    if r.Ok? {
      assert a + (b + r.value) == (a + b) + r.value;
    }
  }

  lemma BeforeNothing(r: Result<seq<string>>)
    ensures Before([], r) == r
  {
    if r.Ok? {
      assert [] + r.value == r.value;
    }
  }

  lemma BeforeEmpty(front: seq<string>)
    ensures Before(front, Ok([])) == Ok(front)
  {
    assert front + [] == front;
  }

  /** One turn of the loop inside a quoted string. */
  lemma QuotedTurn(s: string)
    requires s != [] && s[0] != '"' && (s[0] == '\\' ==> |s| > 1)
    ensures s[0] != '\\' ==> QuotedValue(s) == Onto([s[0]], QuotedValue(s[1..]))
    ensures s[0] == '\\' && (s[1] == '"' || s[1] == '\\') ==> QuotedValue(s) == Onto([s[1]], QuotedValue(s[2..]))
    ensures s[0] == '\\' && s[1] != '"' && s[1] != '\\' ==>
              QuotedValue(s) == Onto(['\\', s[1]], QuotedValue(s[2..]))
  {}

  /** Reads a quoted string from `start`, just after its opening quote. */
  method ReadQuoted(line: string, start: nat) returns (value: Option<string>, next: nat)
    requires start <= |line|
    ensures start <= next <= |line|
    ensures QuotedValue(line[start..]) == if value.None? then None else Some((value.value, line[next..]))
    ensures value.Some? ==> start < next
  {
    var text := "";
    next := start;
    assert forall r: Option<(string, string)> :: r.Some? ==> [] + r.value.0 == r.value.0;
    while next < |line|
      invariant start <= next <= |line|
      invariant QuotedValue(line[start..]) == Onto(text, QuotedValue(line[next..]))
    {
      var ch := line[next];
      ghost var s := line[next..];
      if ch == '"' {
        assert s[1..] == line[next + 1..];
        next := next + 1;
        assert text + [] == text;
        return Some(text), next;
      }
      if ch == '\\' {
        if next + 1 == |line| {
          return None, next;
        }
        var other := line[next + 1];
        assert s[2..] == line[next + 2..];
        QuotedTurn(s);
        if other == '"' || other == '\\' {
          OntoTwice(text, [other], QuotedValue(line[next + 2..]));
          text := text + [other];
        } else {
          OntoTwice(text, ['\\', other], QuotedValue(line[next + 2..]));
          text := text + ['\\', other];
        }
        next := next + 2;
      } else {
        assert s[1..] == line[next + 1..];
        QuotedTurn(s);
        OntoTwice(text, [ch], QuotedValue(line[next + 1..]));
        text := text + [ch];
        next := next + 1;
      }
    }
    value := None;
  }

  /** Splits a command line into its arguments. */
  method Tokenize(line: string) returns (r: Result<seq<string>>)
    ensures r == Arguments(line)
  {
    hide QuotedValue, WordLength, SkipBlanks;
    var tokens: seq<string> := [];
    var i := 0;
    assert line[0..] == line;
    BeforeNothing(Arguments(line));
    while true
      invariant 0 <= i <= |line|
      invariant Arguments(line) == Before(tokens, Arguments(line[i..]))
      decreases |line| - i
    {
      ghost var from := line[i..];
      i := SkipFrom(line, i);
      if i == |line| {
        BeforeEmpty(tokens);
        return Ok(tokens);
      }
      ghost var s := line[i..];
      if line[i] == '"' {
        assert s[1..] == line[i + 1..];
        var value, next := ReadQuoted(line, i + 1);
        if value.None? {
          return Err;
        }
        BeforeTwice(tokens, [value.value], Arguments(line[next..]));
        tokens := tokens + [value.value];
        i := next;
      } else {
        var value, next := ReadWord(line, i);
        BeforeTwice(tokens, [value], Arguments(line[next..]));
        tokens := tokens + [value];
        i := next;
      }
    }
  }

  method ReadWord(line: string, start: nat) returns (value: string, next: nat)
    requires start < |line| && !IsBlank(line[start])
    ensures start < next <= |line| && next == start + WordLength(line[start..])
    ensures value == line[start..next] == line[start..][..next - start] && line[next..] == line[start..][next - start..]
  {
    value := "";
    next := start;
    while next < |line| && !IsBlank(line[next])
      invariant start <= next <= |line| && value == line[start..next]
      invariant WordLength(line[start..]) == next - start + WordLength(line[next..])
    {
      assert line[next..][1..] == line[next + 1..];
      value := value + [line[next]];
      next := next + 1;
    }
  }

  method SkipFrom(line: string, from: nat) returns (i: nat)
    requires from <= |line|
    ensures from <= i <= |line| && line[i..] == SkipBlanks(line[from..])
    ensures i < |line| ==> !IsBlank(line[i])
  {
    i := from;
    while i < |line| && IsBlank(line[i])
      invariant from <= i <= |line|
      invariant SkipBlanks(line[from..]) == SkipBlanks(line[i..])
    {
      assert line[i..][1..] == line[i + 1..];
      i := i + 1;
    }
  }

  // ---------------------------------------------------------------- quoting

  function Escaped(value: string): string {
    if value == [] then []
    else (if value[0] == '"' || value[0] == '\\' then ['\\', value[0]] else [value[0]]) + Escaped(value[1..])
  }

  /** A quoted string of RFC 5804, section 4. */
  function Quoted(value: string): string {
    ['"'] + Escaped(value) + ['"']
  }

  lemma {:induction false} EscapedSnoc(value: string, c: char)
    ensures Escaped(value + [c]) == Escaped(value) + (if c == '"' || c == '\\' then ['\\', c] else [c])
  {
    if value == [] {
      assert value + [c] == [c] && [c][1..] == [];
    } else {
      EscapedSnoc(value[1..], c);
      assert (value + [c])[1..] == value[1..] + [c];
    }
  }

  method Quote(value: string) returns (out: string)
    ensures out == Quoted(value)
  {
    out := ['"'];
    for i := 0 to |value|
      invariant out == ['"'] + Escaped(value[..i])
    {
      EscapedSnoc(value[..i], value[i]);
      assert value[..i + 1] == value[..i] + [value[i]];
      var ch := value[i];
      if ch == '"' || ch == '\\' {
        out := out + ['\\'];
      }
      out := out + [ch];
    }
    assert value[..|value|] == value;
    out := out + ['"'];
  }

  // ---------------------------------------------------------------- a line written out is read back

  /** However a value reads, its quoted form gives it back and leaves the rest. */
  lemma {:induction false} QuotedReads(value: string, rest: string)
    ensures QuotedValue(Escaped(value) + ['"'] + rest) == Some((value, rest))
  {
    var s := Escaped(value) + ['"'] + rest;
    if value == [] {
      assert s == ['"'] + rest && s[1..] == rest;
    } else {
      QuotedReads(value[1..], rest);
      var after := Escaped(value[1..]) + ['"'] + rest;
      var front := if value[0] == '"' || value[0] == '\\' then ['\\', value[0]] else [value[0]];
      EscapedFront(value, rest);
      assert s == front + after && s[|front|..] == after;
      assert value == [value[0]] + value[1..];
    }
  }

  lemma EscapedFront(value: string, rest: string)
    requires value != []
    ensures Escaped(value) + ['"'] + rest
            == (if value[0] == '"' || value[0] == '\\' then ['\\', value[0]] else [value[0]])
               + (Escaped(value[1..]) + ['"'] + rest)
  {
    var front := if value[0] == '"' || value[0] == '\\' then ['\\', value[0]] else [value[0]];
    Assoc(front, Escaped(value[1..]), ['"'] + rest);
    Assoc(front + Escaped(value[1..]), ['"'], rest);
    Assoc(Escaped(value[1..]), ['"'], rest);
  }

  lemma Assoc(a: string, b: string, c: string)
    ensures (a + b) + c == a + (b + c)
  {}

  /** An argument as a client may write it: quoted, or bare when it allows that. */
  datatype Argument = InQuotes(value: string) | Bare(value: string)
  {
    predicate Valid() {
      Bare? ==> value != [] && value[0] != '"' && forall i :: 0 <= i < |value| ==> value[i] != ' ' && value[i] != '\t'
    }

    function Text(): string {
      if Bare? then value else Quoted(value)
    }
  }

  /** Arguments with the blanks written after each of them. */
  function LineOf(arguments: seq<(Argument, string)>): string {
    if arguments == [] then [] else arguments[0].0.Text() + (arguments[0].1 + LineOf(arguments[1..]))
  }

  /** Blanks everywhere but perhaps after the last argument. */
  predicate ValidLine(arguments: seq<(Argument, string)>) {
    forall i :: 0 <= i < |arguments| ==>
      arguments[i].0.Valid() && Blanks(arguments[i].1) && (i + 1 < |arguments| ==> arguments[i].1 != [])
  }

  function Values(arguments: seq<(Argument, string)>): seq<string> {
    if arguments == [] then [] else [arguments[0].0.value] + Values(arguments[1..])
  }

  lemma {:induction false} BlanksSkipped(blanks: string, s: string)
    requires Blanks(blanks)
    ensures SkipBlanks(blanks + s) == SkipBlanks(s)
  {
    if blanks == [] {
      assert blanks + s == s;
    } else {
      assert (blanks + s)[1..] == blanks[1..] + s;
      BlanksSkipped(blanks[1..], s);
    }
  }

  lemma {:induction false} WordReads(word: string, s: string)
    requires forall i :: 0 <= i < |word| ==> !IsBlank(word[i])
    requires s == [] || IsBlank(s[0])
    ensures WordLength(word + s) == |word|
  {
    if word == [] {
      assert word + s == s;
    } else {
      assert (word + s)[1..] == word[1..] + s;
      WordReads(word[1..], s);
    }
  }

  lemma ArgumentReads(a: Argument, s: string)
    requires a.Valid() && (a.Bare? ==> s == [] || IsBlank(s[0]))
    ensures Arguments(a.Text() + s) == Before([a.value], Arguments(s))
  {
    var line := a.Text() + s;
    match a
    case Bare(word) =>
      WordReads(word, s);
      assert line[..|word|] == word && line[|word|..] == s;
    case InQuotes(value) =>
      QuotedReads(value, s);
      QuotedShape(value, s);
      hide QuotedValue;
      assert SkipBlanks(line) == line;
  }

  lemma QuotedShape(value: string, s: string)
    ensures Quoted(value) + s != [] && (Quoted(value) + s)[0] == '"'
    ensures (Quoted(value) + s)[1..] == Escaped(value) + ['"'] + s
  {
    hide Escaped;
    Assoc(['"'], Escaped(value), ['"']);
    Assoc(['"'], Escaped(value) + ['"'], s);
  }

  lemma BlanksIgnored(blanks: string, s: string)
    requires Blanks(blanks)
    ensures Arguments(blanks + s) == Arguments(s)
  {
    BlanksSkipped(blanks, s);
    hide SkipBlanks;
  }

  /** Every list of arguments, quoted or bare, with any blanks around them, is read back. */
  lemma {:induction false} ArgumentsRead(lead: string, arguments: seq<(Argument, string)>)
    requires Blanks(lead) && ValidLine(arguments)
    ensures Arguments(lead + LineOf(arguments)) == Ok(Values(arguments))
    decreases |arguments|
  {
    hide Arguments;
    BlanksIgnored(lead, LineOf(arguments));
    if arguments == [] {
      NothingReads();
    } else {
      var (a, blanks) := arguments[0];
      ArgumentsRead(blanks, arguments[1..]);
      ArgumentReads(a, blanks + LineOf(arguments[1..]));
    }
  }

  lemma NothingReads()
    ensures Arguments([]) == Ok([])
  {}

  /** The quoted form of each string, separated by single spaces. */
  function JoinQuoted(values: seq<string>): string {
    if values == [] then []
    else if |values| == 1 then Quoted(values[0])
    else Quoted(values[0]) + ([' '] + JoinQuoted(values[1..]))
  }

  /** Splitting undoes quoting and joining, whatever the strings hold. */
  lemma TokenizeUndoesQuote(values: seq<string>)
    ensures Arguments(JoinQuoted(values)) == Ok(values)
  {
    var arguments := Spaced(values);
    JoinedIsLine(values);
    ArgumentsRead("", arguments);
    assert "" + LineOf(arguments) == LineOf(arguments);
  }

  function Spaced(values: seq<string>): seq<(Argument, string)> {
    if values == [] then []
    else [(InQuotes(values[0]), if |values| > 1 then " " else "")] + Spaced(values[1..])
  }

  lemma {:induction false} JoinedIsLine(values: seq<string>)
    ensures LineOf(Spaced(values)) == JoinQuoted(values) && Values(Spaced(values)) == values
    ensures ValidLine(Spaced(values)) && |Spaced(values)| == |values|
  {
    hide Quoted;
    if values != [] {
      JoinedIsLine(values[1..]);
      if |values| == 1 {
        assert Quoted(values[0]) + ([] + []) == Quoted(values[0]);
      }
    }
  }

  /** A backslash before any other character than a quote or a backslash stands for itself. */
  lemma UnknownEscapeIsKept(before: string, c: char, after: string)
    requires c != '"' && c != '\\'
    ensures Arguments(['"'] + Escaped(before) + ['\\', c] + Escaped(after) + ['"']) ==
            Ok([before + ['\\', c] + after])
  {
    var raw := ['\\', c] + (Escaped(after) + ['"']);
    var line := ['"'] + Escaped(before) + ['\\', c] + Escaped(after) + ['"'];
    hide *;
    RawReads(c, after);
    QuotedBehind(before, raw);
    OntoRaw(before, ['\\', c], after);
    QuotedLine(Escaped(before) + raw);
    LineOfParts(Escaped(before), c, Escaped(after));
    NothingReads();
    BeforeEmpty([before + ['\\', c] + after]);
  }

  lemma OntoRaw(before: string, raw: string, after: string)
    ensures Onto(before, Some((raw + after, ""))) == Some((before + raw + after, ""))
  {
    Assoc(before, raw, after);
  }

  lemma LineOfParts(a: string, c: char, b: string)
    ensures ['"'] + a + ['\\', c] + b + ['"'] == ['"'] + (a + (['\\', c] + (b + ['"'])))
  {}

  /** A line that starts with a quote. */
  lemma QuotedLine(inside: string)
    ensures Arguments(['"'] + inside) ==
            match QuotedValue(inside)
            case None => Err
            case Some((value, rest)) => Before([value], Arguments(rest))
  {
    hide QuotedValue;
    var line := ['"'] + inside;
    assert SkipBlanks(line) == line && line[1..] == inside;
  }

  lemma RawReads(c: char, after: string)
    requires c != '"' && c != '\\'
    ensures QuotedValue(['\\', c] + (Escaped(after) + ['"'])) == Some((['\\', c] + after, ""))
  {
    var rest := Escaped(after) + ['"'];
    assert (['\\', c] + rest)[2..] == rest;
    QuotedReads(after, "");
    assert Escaped(after) + ['"'] + "" == rest;
    hide Escaped;
  }

  /** Escaped text in front of more of a quoted string. */
  lemma {:induction false} QuotedBehind(before: string, more: string)
    ensures QuotedValue(Escaped(before) + more) == Onto(before, QuotedValue(more))
  {
    if before == [] {
      assert Escaped(before) + more == more;
      OntoNothing(QuotedValue(more));
    } else {
      var front := if before[0] == '"' || before[0] == '\\' then ['\\', before[0]] else [before[0]];
      var rest := Escaped(before[1..]) + more;
      assert Escaped(before) + more == front + rest by { Assoc(front, Escaped(before[1..]), more); }
      FrontReads(before[0], rest);
      QuotedBehind(before[1..], more);
      hide QuotedValue, Escaped;
      OntoTwice([before[0]], before[1..], QuotedValue(more));
      assert [before[0]] + before[1..] == before;
    }
  }

  lemma FrontReads(c: char, rest: string)
    ensures QuotedValue((if c == '"' || c == '\\' then ['\\', c] else [c]) + rest) == Onto([c], QuotedValue(rest))
  {
    var front := if c == '"' || c == '\\' then ['\\', c] else [c];
    assert (front + rest)[|front|..] == rest;
  }

  lemma OntoNothing(r: Option<(string, string)>)
    ensures Onto("", r) == r
  {
    if r.Some? { assert "" + r.value.0 == r.value.0; }
  }

  /** A backslash at the end of the line closes nothing. */
  lemma LoneBackslashFails(value: string)
    ensures Arguments(['"'] + Escaped(value) + ['\\']) == Err
  {
    LoneBackslash();
    hide *;
    QuotedBehind(value, ['\\']);
    QuotedLine(Escaped(value) + ['\\']);
    OntoNone(value);
    Assoc(['"'], Escaped(value), ['\\']);
  }

  lemma LoneBackslash()
    ensures QuotedValue(['\\']) == None
  {}

  lemma OntoNone(more: string)
    ensures Onto(more, None) == None
  {}

  /** A quoted string without its closing quote is an error. */
  lemma UnclosedFails(value: string)
    ensures Arguments(['"'] + Escaped(value)) == Err
  {
    UnclosedValue(value);
    QuotedLine(Escaped(value));
  }

  lemma {:induction false} UnclosedValue(value: string)
    ensures QuotedValue(Escaped(value)) == None
  {
    if value != [] {
      UnclosedValue(value[1..]);
      var front := if value[0] == '"' || value[0] == '\\' then ['\\', value[0]] else [value[0]];
      assert Escaped(value)[|front|..] == Escaped(value[1..]);
    }
  }
}
