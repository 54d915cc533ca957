/** The hash-chained audit log: records, the locked append and the verifier
    with its head anchor. */
module AuditLog {
  import opened Common
  import opened Text
  import opened Json
  import opened Utf8

  type Bytes = seq<byte>

  const GENESIS: string := Zeros(64)
  const TAIL_READ_BYTES: nat := 262144

  /** One line of the log as the JSON library reads it. */
  datatype Line = Unreadable | Blank | NotJson | Json(value: Value)

  /** The foreign code the log runs on: SHA-256 as lower-case hex of UTF-8
      text, and the JSON reader on a whole line, strict about UTF-8 for the
      verifier and lossy for the appender. */
  datatype World = World(hash: string -> string, strict: Bytes -> Line, lossy: Bytes -> Line)

  // ---------------------------------------------------------------- records

  type Uid = n: nat | n <= U32_MAX

  datatype Record = Record(
    time: string, uid: Uid, action: string, target: string, ok: bool, error: string, prevHash: string, hash: string)

  function BoolText(b: bool): string {
    if b then "true" else "false"
  }

  /** A member with a key that needs no escapes. */
  function Member(name: string, value: string): string {
    "\"" + name + "\":" + value
  }

  /** The hand-ordered canonical form that `record_hash` hashes. */
  function RecordCanonical(r: Record): string {
    "{" + Member("action", JsonString(r.action)) + "," + Member("error", JsonString(r.error))
    + "," + Member("ok", BoolText(r.ok)) + "," + Member("prev_hash", JsonString(r.prevHash))
    + "," + Member("target", JsonString(r.target)) + "," + Member("time", JsonString(r.time))
    + "," + Member("uid", Decimal(r.uid)) + "}"
  }

  /** The record as a JSON object. */
  function RecordFields(r: Record): map<string, Value> {
    map["time" := Str(r.time), "uid" := Number(NumberOf(r.uid)), "action" := Str(r.action), "target" := Str(r.target),
        "ok" := Bool(r.ok), "error" := Str(r.error), "prev_hash" := Str(r.prevHash), "hash" := Str(r.hash)]
  }

  function NumberOf(n: nat): NumberText {
    Decimal(n)
  }

  /** The line the serializer writes: struct fields in declaration order. */
  function RecordLine(r: Record): string {
    "{" + Member("time", JsonString(r.time)) + "," + Member("uid", Decimal(r.uid))
    + "," + Member("action", JsonString(r.action)) + "," + Member("target", JsonString(r.target))
    + "," + Member("ok", BoolText(r.ok)) + "," + Member("error", JsonString(r.error))
    + "," + Member("prev_hash", JsonString(r.prevHash)) + "," + Member("hash", JsonString(r.hash)) + "}"
  }

  /** The text whose hash a chained object must carry: all members but `hash`, keys sorted. */
  function HashedText(fields: map<string, Value>): string {
    Canon(Obj(fields - {"hash"}))
  }

  // ---------------------------------------------------------------- reading lines

  /** The lines of a text, without their line breaks. */
  function Lines(text: Bytes): seq<Bytes> {
    LinesFrom([], text)
  }

  function LinesFrom(line: Bytes, text: Bytes): seq<Bytes>
    decreases |text|
  {
    if text == [] then (if line == [] then [] else [line])
    else if text[0] == LF then [StripCr(line)] + LinesFrom([], text[1..])
    else LinesFrom(line + [text[0]], text[1..])
  }

  function ReadAll(read: Bytes -> Line, lines: seq<Bytes>): seq<Line> {
    seq(|lines|, i requires 0 <= i < |lines| => read(lines[i]))
  }

  function StringMember(fields: map<string, Value>, key: string): Option<string> {
    if key in fields && fields[key].Str? then Some(fields[key].s) else None
  }

  // ---------------------------------------------------------------- the previous hash

  /** The text after cutting a torn last line; none when no line is complete. */
  function WholeLines(text: Bytes): Option<Bytes> {
    if text == [] then None
    else if text[|text| - 1] == LF then Some(text)
    else WholeLines(text[..|text| - 1])
  }

  /** Scanning back from the last line: the first hash met, or whether any object was seen. */
  datatype Scan = Found(hash: string) | Hashless(sawObject: bool)

  function ScanBack(lines: seq<Line>): Scan {
    if lines == [] then Hashless(false)
    else
      var last, before := lines[|lines| - 1], ScanBack(lines[..|lines| - 1]);
      if last.Json? && last.value.Obj? then
        match StringMember(last.value.fields, "hash")
        case Some(h) => Found(h)
        case None => if before.Found? then before else Hashless(true)
      else before
  }

  function Tail(log: Bytes): Bytes {
    if |log| <= TAIL_READ_BYTES then log else log[|log| - TAIL_READ_BYTES..]
  }

  /** `read_last_audit_hash_strict`. */
  function ReadLastHash(w: World, log: Bytes): Result<Option<string>> {
    if log == [] then Ok(None)
    else
      match WholeLines(Tail(log))
      case None => Err
      case Some(text) =>
        match ScanBack(ReadAll(w.lossy, Lines(text)))
        case Found(h) => Ok(Some(h))
        case Hashless(saw) => if saw then Ok(None) else Err
  }

  /** The same scan as the code runs it, last line first. */
  method FindLastHash(lines: seq<Line>) returns (r: Scan)
    ensures r == ScanBack(lines)
  {
    var i := |lines|;
    var saw := false;
    assert lines[..i] == lines;
    while i > 0
      invariant 0 <= i <= |lines|
      invariant ScanBack(lines) ==
                if ScanBack(lines[..i]).Found? then ScanBack(lines[..i])
                else Hashless(saw || ScanBack(lines[..i]).sawObject)
    {
      assert lines[..i][..i - 1] == lines[..i - 1];
      i := i - 1;
      if lines[i].Json? && lines[i].value.Obj? {
        saw := true;
        var h := StringMember(lines[i].value.fields, "hash");
        if h.Some? {
          return Found(h.value);
        }
      }
    }
    r := Hashless(saw);
  }

  /** Reading the tail window, cutting a torn last line, and scanning back. */
  method ReadLast(w: World, log: Bytes) returns (r: Result<Option<string>>)
    ensures r == ReadLastHash(w, log)
  {
    hide ScanBack, LinesFrom, Lines;
    if log == [] {
      return Ok(None);
    }
    var buf := Tail(log);
    var end := |buf|;
    assert buf[..end] == buf;
    while end > 0 && buf[end - 1] != LF
      invariant 0 <= end <= |buf| && WholeLines(buf) == WholeLines(buf[..end])
    {
      assert buf[..end][..end - 1] == buf[..end - 1];
      end := end - 1;
    }
    if end == 0 {
      return Err;
    }
    var scan := FindLastHash(ReadAll(w.lossy, Lines(buf[..end])));
    match scan
    case Found(h) => r := Ok(Some(h));
    case Hashless(saw) => r := if saw then Ok(None) else Err;
  }

  // ---------------------------------------------------------------- appending

  function TruncateChars(s: string, max: nat): string {
    if |s| <= max then s else s[..max]
  }

  /** What one caller asks to have recorded, with the clock and user id it runs under. */
  datatype Call = Call(time: string, uid: Uid, action: string, ok: bool, error: string, target: string)

  /** The record a call appends after the hash `prev`. */
  function NewRecord(w: World, prev: string, c: Call): Record {
    var unhashed := Record(
      c.time, c.uid, c.action, TruncateChars(c.target, 120), c.ok, TruncateChars(c.error, 500), prev, []);
    unhashed.(hash := w.hash(RecordCanonical(unhashed)))
  }

  /** One call on a log with these contents: refused, or the record it appends. */
  function AuditStep(w: World, log: Bytes, c: Call): Result<Record> {
    match ReadLastHash(w, log)
    case Err => Err
    case Ok(last) => Ok(NewRecord(w, if last.Some? then last.value else GENESIS, c))
  }

  /** The record is about the call: its time, user, action and outcome, and as much of its
      target and error as is kept. */
  predicate Records(r: Record, c: Call) {
    && r.time == c.time && r.uid == c.uid && r.action == c.action && r.ok == c.ok
    && r.target <= c.target && |r.target| == Min(|c.target|, 120)
    && r.error <= c.error && |r.error| == Min(|c.error|, 500)
  }

  function LineBytes(r: Record): Bytes {
    Encode(RecordLine(r)) + [LF]
  }

  // ---------------------------------------------------------------- verifying

  datatype Problem =
    | InvalidJson(line: nat) | NotAnObject(line: nat) | UnhashedAfterChain(line: nat)
    | PrevMismatch(line: nat) | HashMismatch(line: nat)
    | AnchorUnreadable | TailTruncated | AnchorMismatch

  datatype Verdict = Verdict(ok: bool, entries: nat, anchor: bool)

  /** The head file: absent, unreadable, or its text. */
  datatype Head = Missing | HeadError | HeadText(text: string)

  datatype Progress = Progress(
    entries: nat, started: bool, prev: string, last: Option<string>, problems: seq<Problem>)

  const START := Progress(0, false, GENESIS, None, [])

  /** One readable line of the verifier's pass. */
  function CheckLine(w: World, p: Progress, line: Line, lineno: nat): Progress {
    match line
    case Unreadable => p
    case Blank => p
    case NotJson => p.(problems := p.problems + [InvalidJson(lineno)])
    case Json(value) =>
      if !value.Obj? then p.(problems := p.problems + [NotAnObject(lineno)])
      else
        var hash, prev := StringMember(value.fields, "hash"), StringMember(value.fields, "prev_hash");
        if hash.None? || prev.None? then
          if p.started then p.(problems := p.problems + [UnhashedAfterChain(lineno)]) else p
        else
          var a := if prev.value != p.prev then [PrevMismatch(lineno)] else [];
          var b := if w.hash(HashedText(value.fields)) != hash.value then [HashMismatch(lineno)] else [];
          Progress(p.entries + 1, true, hash.value, Some(hash.value), p.problems + a + b)
  }

  function CheckLines(w: World, lines: seq<Line>): Progress {
    if lines == [] then START
    else CheckLine(w, CheckLines(w, lines[..|lines| - 1]), lines[|lines| - 1], |lines|)
  }

  /** The anchor text of the head file, if any. */
  function Anchor(head: Head): Option<string> {
    if head.HeadText? && Trim(head.text) != [] then Some(Trim(head.text)) else None
  }

  function Finish(p: Progress, head: Head): Verdict {
    var a := if head.HeadError? then [AnchorUnreadable] else [];
    var b := match Anchor(head)
             case None => []
             case Some(anchor) =>
               if p.last.None? then [TailTruncated] else if anchor != p.last.value then [AnchorMismatch] else [];
    Verdict(p.problems + a + b == [], p.entries, Anchor(head).Some?)
  }

  /** `audit_verify` on the log's contents, absent logs being empty. */
  function VerifyLines(w: World, lines: seq<Line>, head: Head): Verdict {
    if Unreadable in lines then Verdict(false, 0, false) else Finish(CheckLines(w, lines), head)
  }

  function LogLines(w: World, log: Bytes): seq<Line> {
    ReadAll(w.strict, Lines(log))
  }

  function Verify(w: World, log: Bytes, head: Head): Verdict {
    VerifyLines(w, LogLines(w, log), head)
  }

  /** The streaming pass: one line at a time, one set of running values. */
  method VerifyPass(w: World, lines: seq<Line>, head: Head) returns (v: Verdict)
    ensures v == VerifyLines(w, lines, head)
  {
    var p := START;
    for i := 0 to |lines|
      invariant p == CheckLines(w, lines[..i])
      invariant Unreadable !in lines[..i]
    {
      assert lines[..i + 1][..i] == lines[..i];
      assert lines[..i + 1] == lines[..i] + [lines[i]];
      if lines[i].Unreadable? {
        return Verdict(false, 0, false);
      }
      p := CheckLine(w, p, lines[i], i + 1);
    }
    assert lines[..|lines|] == lines;
    v := Finish(p, head);
  }

  /** What may fail of a call that is not refused: the append after some bytes, or the head. */
  datatype Fault = NoFault | AppendFails(kept: nat) | HeadFails

  function WrittenPart(line: Bytes, fault: Fault): Bytes {
    if fault.AppendFails? && fault.kept < |line| then line[..fault.kept] else line
  }

  /** The log file and its head anchor, both changed under one lock. */
  class Log {
    const world: World
    var text: Bytes
    var head: Head

    constructor (w: World, text: Bytes, head: Head)
      ensures world == w && this.text == text && this.head == head
    {
      this.world := w;
      this.text := text;
      this.head := head;
    }

    /** One call. A refused call changes nothing; a failed write leaves what was written. */
    method Audit(c: Call, fault: Fault) returns (r: Result<Record>)
      modifies this
      ensures var step := AuditStep(world, old(text), c);
              if step.Err? then r == Err && text == old(text) && head == old(head)
              else
                && r == (if fault.NoFault? then step else Err)
                && text == old(text) + WrittenPart(LineBytes(step.value), fault)
                && head == (if fault.NoFault? then HeadText(step.value.hash + "\n") else old(head))
      ensures r.Ok? ==> Records(r.value, c)
    {
      hide ReadLastHash, RecordCanonical, LineBytes;
      var last := ReadLast(world, text);
      if last.Err? {
        return Err;
      }
      var prev := if last.value.Some? then last.value.value else GENESIS;
      var record := NewRecord(world, prev, c);
      text := text + WrittenPart(LineBytes(record), fault);
      if !fault.NoFault? {
        return Err;
      }
      head := HeadText(record.hash + "\n");
      r := Ok(record);
    }

    method AuditVerify() returns (v: Verdict)
      ensures v == Verify(world, text, head)
    {
      v := VerifyPass(world, LogLines(world, text), head);
    }
  }

  // ---------------------------------------------------------------- hand order equals sorted order

  const HAND_ORDER: seq<string> := ["action", "error", "ok", "prev_hash", "target", "time", "uid"]

  lemma {:induction false} PlainEscape(s: string)
    requires forall i :: 0 <= i < |s| ==> 'a' <= s[i] <= 'z' || s[i] == '_'
    ensures Escape(s) == s
  {
    if s != [] {
      PlainEscape(s[1..]);
      assert s == [s[0]] + s[1..];
    }
  }

  /** One member with a plain key, and the members after it. */
  lemma Peel(v: Value, k: string, rest: seq<string>)
    requires v.Obj? && (forall i :: 0 <= i < |k| ==> 'a' <= k[i] <= 'z' || k[i] == '_')
    requires k in v.fields && (forall i :: i in rest ==> i in v.fields)
    ensures MorePairs(v, [k] + rest) == "," + Member(k, Canon(v.fields[k])) + MorePairs(v, rest)
    ensures PairsText(v, [k] + rest) == Member(k, Canon(v.fields[k])) + MorePairs(v, rest)
  {
    hide Canon;
    PlainEscape(k);
    hide Escape;
    assert ([k] + rest)[1..] == rest;
    assert JsonString(k) + ":" == "\"" + k + "\":";
    assert PairText(v, k) == Member(k, Canon(v.fields[k]));
  }

  /** The hand-ordered text hashed when writing is the key-sorted text hashed when verifying. */
  lemma HandOrderIsSorted(r: Record)
    ensures HashedText(RecordFields(r)) == RecordCanonical(r)
  {
    var v := Obj(RecordFields(r) - {"hash"});
    SortedMembers(r);
    MemberValues(r);
    hide Canon, RecordFields, SortedKeys, JsonString, MorePairs, PairsText, Decimal, BoolText, Member;
    Peel(v, "uid", []);
    var k6 := ["uid"] + [];
    Peel(v, "time", k6);
    var k5 := ["time"] + k6;
    Peel(v, "target", k5);
    var k4 := ["target"] + k5;
    Peel(v, "prev_hash", k4);
    var k3 := ["prev_hash"] + k4;
    Peel(v, "ok", k3);
    var k2 := ["ok"] + k3;
    Peel(v, "error", k2);
    var k1 := ["error"] + k2;
    Peel(v, "action", k1);
    assert ["action"] + k1 == HAND_ORDER;
    NoMorePairs(v);
    Assemble("{", ",", "}", Member("action", JsonString(r.action)), Member("error", JsonString(r.error)),
             Member("ok", BoolText(r.ok)), Member("prev_hash", JsonString(r.prevHash)),
             Member("target", JsonString(r.target)), Member("time", JsonString(r.time)), Member("uid", Decimal(r.uid)));
  }

  lemma NoMorePairs(v: Value)
    requires v.Obj?
    ensures MorePairs(v, []) == "}"
  {}

  lemma MemberValues(r: Record)
    ensures var f := RecordFields(r) - {"hash"};
            && f.Keys == {"action", "error", "ok", "prev_hash", "target", "time", "uid"}
            && Canon(f["action"]) == JsonString(r.action) && Canon(f["error"]) == JsonString(r.error)
            && Canon(f["ok"]) == BoolText(r.ok) && Canon(f["prev_hash"]) == JsonString(r.prevHash)
            && Canon(f["target"]) == JsonString(r.target) && Canon(f["time"]) == JsonString(r.time)
            && Canon(f["uid"]) == Decimal(r.uid)
  {
    hide JsonString, Decimal;
  }

  lemma SortedMembers(r: Record)
    ensures HashedText(RecordFields(r))
         == "{" + PairsText(Obj(RecordFields(r) - {"hash"}), HAND_ORDER)
  {
    var fields := RecordFields(r) - {"hash"};
    KeysAscend();
    MemberValues(r);
    hide RecordFields, JsonString, PairsText;
    AscendingIsSorted(HAND_ORDER, fields.Keys);
  }

  lemma Assemble(open: string, comma: string, close: string,
                 a: string, b: string, c: string, d: string, e: string, f: string, g: string)
    ensures open + (a + (comma + b + (comma + c + (comma + d + (comma + e + (comma + f + (comma + g + close)))))))
         == open + a + comma + b + comma + c + comma + d + comma + e + comma + f + comma + g + close
  {
    var x6 := comma + g + close;
    var x5 := comma + f + x6;
    var x4 := comma + e + x5;
    var x3 := comma + d + x4;
    var x2 := comma + c + x3;
    var y := open + a;
    Regroup(y, comma, b, x2);
    var y2 := y + comma + b;
    Regroup(y2, comma, c, x3);
    var y3 := y2 + comma + c;
    Regroup(y3, comma, d, x4);
    var y4 := y3 + comma + d;
    Regroup(y4, comma, e, x5);
    var y5 := y4 + comma + e;
    Regroup(y5, comma, f, x6);
    Regroup(y5 + comma + f, comma, g, close);
    assert open + (a + (comma + b + x2)) == y + (comma + b + x2);
  }

  lemma Regroup(x: string, comma: string, member: string, more: string)
    ensures x + (comma + member + more) == x + comma + member + more
  {}

  lemma KeysAscend()
    ensures Ascending(HAND_ORDER)
  {
    assert Less("target", "time") by { assert "target"[1..] == "arget" && "time"[1..] == "ime"; }
  }

  // ---------------------------------------------------------------- what acceptance means

  type Fields = map<string, Value>

  /** A line that carries a hash and a previous hash. */
  predicate IsChained(line: Line) {
    line.Json? && line.value.Obj? && StringMember(line.value.fields, "hash").Some?
    && StringMember(line.value.fields, "prev_hash").Some?
  }

  /** The chained records of a log, in order. */
  function Chain(lines: seq<Line>): (c: seq<Fields>)
    ensures forall i :: 0 <= i < |c| ==> IsChained(Json(Obj(c[i])))
  {
    if lines == [] then []
    else
      var last := lines[|lines| - 1];
      Chain(lines[..|lines| - 1]) + (if IsChained(last) then [last.value.fields] else [])
  }

  function HashOf(f: Fields): string
    requires IsChained(Json(Obj(f)))
  {
    f["hash"].s
  }

  function PrevOf(f: Fields): string
    requires IsChained(Json(Obj(f)))
  {
    f["prev_hash"].s
  }

  predicate LinkAt(w: World, c: seq<Fields>, i: nat)
    requires i < |c| && forall i :: 0 <= i < |c| ==> IsChained(Json(Obj(c[i])))
  {
    && HashOf(c[i]) == w.hash(HashedText(c[i]))
    && PrevOf(c[i]) == if i == 0 then GENESIS else HashOf(c[i - 1])
  }

  /** Each record carries its own hash and names its predecessor's, the first one genesis. */
  predicate Linked(w: World, c: seq<Fields>)
    requires forall i :: 0 <= i < |c| ==> IsChained(Json(Obj(c[i])))
  {
    forall i :: 0 <= i < |c| ==> LinkAt(w, c, i)
  }

  /** Only blank lines and objects, and nothing unchained but blanks after the chain begins. */
  predicate WellFormedLog(lines: seq<Line>) {
    && (forall i :: 0 <= i < |lines| ==> lines[i].Blank? || (lines[i].Json? && lines[i].value.Obj?))
    && (forall i, j :: 0 <= i < j < |lines| && IsChained(lines[i]) ==> lines[j].Blank? || IsChained(lines[j]))
  }

  /** A line that adds no problem to the verifier's state. */
  predicate LineOk(w: World, p: Progress, line: Line) {
    line.Blank? ||
    (line.Json? && line.value.Obj? &&
     if IsChained(line) then
       PrevOf(line.value.fields) == p.prev && HashOf(line.value.fields) == w.hash(HashedText(line.value.fields))
     else !p.started)
  }

  lemma CheckLineEffect(w: World, p: Progress, line: Line, lineno: nat)
    requires !line.Unreadable?
    ensures var q := CheckLine(w, p, line, lineno);
            && (q.problems == [] <==> p.problems == [] && LineOk(w, p, line))
            && if IsChained(line) then
                 q.entries == p.entries + 1 && q.started
                 && q.prev == HashOf(line.value.fields) && q.last == Some(q.prev)
               else q == p.(problems := q.problems)
  {
    hide HashedText;
  }

  /** The verifier's state summarizes the lines it has passed. */
  ghost predicate Tracks(w: World, p: Progress, lines: seq<Line>) {
    var c := Chain(lines);
    && p.entries == |c| && p.started == (c != [])
    && p.prev == (if c == [] then GENESIS else HashOf(c[|c| - 1]))
    && p.last == (if c == [] then None else Some(HashOf(c[|c| - 1])))
    && (p.problems == [] <==> WellFormedLog(lines) && Linked(w, c))
  }

  lemma TracksStep(w: World, p: Progress, front: seq<Line>, last: Line)
    requires Tracks(w, p, front) && !last.Unreadable?
    ensures Tracks(w, CheckLine(w, p, last, |front| + 1), front + [last])
  {
    hide CheckLine, HashedText, WellFormedLog, Linked;
    assert (front + [last])[..|front|] == front;
    FormSnoc(front, last);
    CheckLineEffect(w, p, last, |front| + 1);
    if IsChained(last) {
      assert Chain(front + [last]) == Chain(front) + [last.value.fields];
      LinkedSnoc(w, Chain(front), last.value.fields);
    } else {
      assert Chain(front + [last]) == Chain(front);
    }
  }

  lemma {:induction false} CheckedSoFar(w: World, lines: seq<Line>)
    requires Unreadable !in lines
    ensures Tracks(w, CheckLines(w, lines), lines)
  {
    if lines == [] {
      assert Chain(lines) == [];
    } else {
      hide CheckLine, Tracks;
      var front, last := lines[..|lines| - 1], lines[|lines| - 1];
      assert lines == front + [last];
      CheckedSoFar(w, front);
      TracksStep(w, CheckLines(w, front), front, last);
    }
  }

  lemma {:induction false} ChainIsNonempty(lines: seq<Line>)
    ensures Chain(lines) != [] <==> exists i :: 0 <= i < |lines| && IsChained(lines[i])
  {
    if lines != [] {
      var front, last := lines[..|lines| - 1], lines[|lines| - 1];
      ChainIsNonempty(front);
      if IsChained(last) { assert IsChained(lines[|lines| - 1]); }
      forall i | 0 <= i < |front| ensures front[i] == lines[i] {}
      if i :| 0 <= i < |lines| && IsChained(lines[i]) && i < |front| { assert IsChained(front[i]); }
    }
  }

  lemma FormSnoc(front: seq<Line>, last: Line)
    ensures WellFormedLog(front + [last]) <==>
            && WellFormedLog(front)
            && (last.Blank? || (last.Json? && last.value.Obj?))
            && (Chain(front) != [] ==> last.Blank? || IsChained(last))
  {
    ChainIsNonempty(front);
    var lines := front + [last];
    forall i | 0 <= i < |front| ensures lines[i] == front[i] {}
    assert lines[|front|] == last;
  }

  lemma LinkedSnoc(w: World, c: seq<Fields>, f: Fields)
    requires forall i :: 0 <= i < |c| ==> IsChained(Json(Obj(c[i])))
    requires IsChained(Json(Obj(f)))
    ensures forall i :: 0 <= i < |c + [f]| ==> IsChained(Json(Obj((c + [f])[i])))
    ensures Linked(w, c + [f]) <==>
            && Linked(w, c) && HashOf(f) == w.hash(HashedText(f))
            && PrevOf(f) == if c == [] then GENESIS else HashOf(c[|c| - 1])
  {
    hide HashedText, IsChained;
    var d := c + [f];
    assert d[|c|] == f && forall i :: 0 <= i < |c| ==> d[i] == c[i];
    forall i | 0 <= i < |c| ensures LinkAt(w, d, i) <==> LinkAt(w, c, i) {
      hide Linked;
    }
    LastLink(w, c, f, d);
    hide LinkAt, HashOf, PrevOf;
  }

  lemma LastLink(w: World, c: seq<Fields>, f: Fields, d: seq<Fields>)
    requires d == c + [f] && (forall i :: 0 <= i < |d| ==> IsChained(Json(Obj(d[i]))))
    requires c != [] ==> IsChained(Json(Obj(c[|c| - 1])))
    requires IsChained(Json(Obj(f)))
    ensures LinkAt(w, d, |c|) <==>
            HashOf(f) == w.hash(HashedText(f)) && PrevOf(f) == if c == [] then GENESIS else HashOf(c[|c| - 1])
  {
    hide HashedText, IsChained;
    assert d[|c|] == f && (c != [] ==> d[|c| - 1] == c[|c| - 1]);
  }

  /** The verifier accepts exactly the well-formed logs whose chain is linked from
      genesis and, when anchored, ends in the anchor; it counts the chained records. */
  lemma VerifyExact(w: World, lines: seq<Line>, head: Head)
    ensures var c := Chain(lines);
            VerifyLines(w, lines, head).ok <==>
            && Unreadable !in lines && WellFormedLog(lines) && Linked(w, c) && !head.HeadError?
            && (Anchor(head).Some? ==> c != [] && HashOf(c[|c| - 1]) == Anchor(head).value)
    ensures Unreadable !in lines ==> VerifyLines(w, lines, head).entries == |Chain(lines)|
  {
    if Unreadable !in lines {
      CheckedSoFar(w, lines);
    }
  }

  // ---------------------------------------------------------------- no edit passes

  /** The texts whose hashes a chain relies on. */
  ghost function HashedTexts(c: seq<Fields>): set<string> {
    set i | 0 <= i < |c| :: HashedText(c[i])
  }

  /** The hash function is broken on these texts: two collide, or one hits the genesis value. */
  ghost predicate HashBroken(w: World, texts: set<string>) {
    || (exists a, b :: a in texts && b in texts && a != b && w.hash(a) == w.hash(b))
    || (exists a :: a in texts && w.hash(a) == GENESIS)
  }

  lemma HashBrokenGrows(w: World, small: set<string>, big: set<string>)
    requires HashBroken(w, small) && small <= big
    ensures HashBroken(w, big)
  {}

  lemma Collision(w: World, texts: set<string>, a: string, b: string)
    requires a in texts && b in texts && a != b && w.hash(a) == w.hash(b)
    ensures HashBroken(w, texts)
  {}

  lemma GenesisHit(w: World, texts: set<string>, a: string)
    requires a in texts && w.hash(a) == GENESIS
    ensures HashBroken(w, texts)
  {}

  /** Equal hashed texts and equal hashes make equal records. */
  lemma SameRecord(f: Fields, g: Fields)
    requires IsChained(Json(Obj(f))) && IsChained(Json(Obj(g)))
    requires HashedText(f) == HashedText(g) && HashOf(f) == HashOf(g)
    ensures f == g
  {
    hide Canon;
    CanonInjective(Obj(f - {"hash"}), Obj(g - {"hash"}));
    assert f == (f - {"hash"})["hash" := f["hash"]];
    assert g == (g - {"hash"})["hash" := g["hash"]];
  }

  lemma LinkedPrefix(w: World, c: seq<Fields>)
    requires c != [] && (forall i :: 0 <= i < |c| ==> IsChained(Json(Obj(c[i])))) && Linked(w, c)
    ensures Linked(w, c[..|c| - 1])
    ensures HashedTexts(c[..|c| - 1]) <= HashedTexts(c) && HashedText(c[|c| - 1]) in HashedTexts(c)
    ensures |c| > 1 ==> PrevOf(c[|c| - 1]) == HashOf(c[|c| - 2])
    ensures |c| == 1 ==> PrevOf(c[0]) == GENESIS
    ensures HashOf(c[|c| - 1]) == w.hash(HashedText(c[|c| - 1]))
  {
    hide HashedText;
    var d := c[..|c| - 1];
    assert LinkAt(w, c, |c| - 1);
    forall i | 0 <= i < |d| ensures LinkAt(w, d, i) {
      assert LinkAt(w, c, i);
    }
  }

  /** Two linked chains with the same last hash are the same chain, unless the hash is broken. */
  lemma {:induction false} SameLastHash(w: World, c: seq<Fields>, d: seq<Fields>)
    requires forall i :: 0 <= i < |c| ==> IsChained(Json(Obj(c[i])))
    requires forall i :: 0 <= i < |d| ==> IsChained(Json(Obj(d[i])))
    requires Linked(w, c) && Linked(w, d) && c != [] && d != []
    requires HashOf(c[|c| - 1]) == HashOf(d[|d| - 1])
    ensures c == d || HashBroken(w, HashedTexts(c) + HashedTexts(d))
    decreases |c|
  {
    hide HashedText, Linked, HashBroken, HashedTexts, HashOf, PrevOf, IsChained;
    LinkedPrefix(w, c);
    LinkedPrefix(w, d);
    var f, g, c', d' := c[|c| - 1], d[|d| - 1], c[..|c| - 1], d[..|d| - 1];
    var texts := HashedTexts(c) + HashedTexts(d);
    if HashedText(f) != HashedText(g) {
      Collision(w, texts, HashedText(f), HashedText(g));
    } else {
      SameRecord(f, g);
      assert c == c' + [f] && d == d' + [f];
      if c' != [] && d' != [] {
        SameLastHash(w, c', d');
        if c' != d' { HashBrokenGrows(w, HashedTexts(c') + HashedTexts(d'), texts); }
      } else if c' != [] {
        LinkedPrefix(w, c');
        GenesisHit(w, texts, HashedText(c'[|c'| - 1]));
      } else if d' != [] {
        LinkedPrefix(w, d');
        GenesisHit(w, texts, HashedText(d'[|d'| - 1]));
      }
    }
  }

  /** Two logs accepted under the same anchor hold the same chained records: no edit,
      reorder, splice or truncation of the chain passes unless the hash is broken. */
  lemma AnchorFixesChain(w: World, a: seq<Line>, b: seq<Line>, head: Head)
    requires Anchor(head).Some?
    requires VerifyLines(w, a, head).ok && VerifyLines(w, b, head).ok
    ensures Chain(a) == Chain(b) || HashBroken(w, HashedTexts(Chain(a)) + HashedTexts(Chain(b)))
  {
    hide HashedText, HashBroken, HashedTexts, Anchor;
    VerifyExact(w, a, head);
    VerifyExact(w, b, head);
    SameLastHash(w, Chain(a), Chain(b));
  }

  // ---------------------------------------------------------------- runs of appends

  /** What the foreign JSON reader does with lines the serializer wrote. */
  ghost predicate ReadsRecords(w: World) {
    forall r: Record ::
      && w.strict(Encode(RecordLine(r))) == Json(Obj(RecordFields(r)))
      && w.lossy(Encode(RecordLine(r))) == Json(Obj(RecordFields(r)))
  }

  /** Hash values are words without blanks, as hexadecimal digits are. */
  ghost predicate HashesAreWords(w: World) {
    forall t :: IsWord(w.hash(t))
  }

  function Appended(records: seq<Record>): Bytes {
    if records == [] then [] else Appended(records[..|records| - 1]) + LineBytes(records[|records| - 1])
  }

  /** The records a sequence of calls appends, as long as every call succeeds. */
  function Run(w: World, base: Bytes, calls: seq<Call>): Result<seq<Record>> {
    if calls == [] then Ok([])
    else
      match Run(w, base, calls[..|calls| - 1])
      case Err => Err
      case Ok(rs) =>
        match AuditStep(w, base + Appended(rs), calls[|calls| - 1])
        case Err => Err
        case Ok(r) => Ok(rs + [r])
  }

  predicate EndsLine(text: Bytes) {
    text == [] || text[|text| - 1] == LF
  }

  predicate IsPlainLine(line: Line) {
    line.Blank? || (line.Json? && line.value.Obj? && !IsChained(line))
  }

  /** Before the chain: nothing, or whole lines that are blank or objects, none of them chained. */
  predicate IsLegacy(w: World, base: Bytes) {
    EndsLine(base) && forall line :: line in LogLines(w, base) ==> IsPlainLine(line)
  }

  predicate Fits(r: Record) {
    |LineBytes(r)| <= TAIL_READ_BYTES
  }

  /** Every line but the last fits in the tail window. */
  predicate FrontFits(rs: seq<Record>) {
    forall i :: 0 <= i < |rs| - 1 ==> Fits(rs[i])
  }

  // -- lines of concatenated texts

  lemma {:induction false} LinesConcat(line: Bytes, a: Bytes, b: Bytes)
    requires a != [] && a[|a| - 1] == LF
    ensures LinesFrom(line, a + b) == LinesFrom(line, a) + LinesFrom([], b)
    decreases |a|
  {
    assert (a + b)[0] == a[0] && (a + b)[1..] == a[1..] + b;
    if |a| == 1 {
      assert a[1..] == [] && [] + b == b;
      assert LinesFrom([], []) == [];
    } else if a[0] == LF {
      LinesConcat([], a[1..], b);
    } else {
      LinesConcat(line + [a[0]], a[1..], b);
    }
  }

  lemma {:induction false} OneLine(line: Bytes, more: Bytes)
    requires LF !in more
    ensures LinesFrom(line, more + [LF]) == [StripCr(line + more)]
    decreases |more|
  {
    if more == [] {
      assert more + [LF] == [LF] && [LF][1..] == [] && line + more == line;
    } else {
      assert (more + [LF])[1..] == more[1..] + [LF];
      assert line + [more[0]] + more[1..] == line + more;
      OneLine(line + [more[0]], more[1..]);
    }
  }

  /** Appending one whole line appends one line. */
  lemma LinesSnoc(text: Bytes, line: Bytes)
    requires EndsLine(text) && LF !in line
    ensures Lines(text + (line + [LF])) == Lines(text) + [StripCr(line)]
  {
    OneLine([], line);
    assert [] + line == line;
    if text == [] {
      assert text + (line + [LF]) == line + [LF];
    } else {
      LinesConcat([], text, line + [LF]);
    }
  }

  /** A line that ends in CR LF is the same line. */
  lemma LinesEndEitherWay(text: Bytes, line: Bytes)
    requires EndsLine(text) && LF !in line && (line != [] ==> line[|line| - 1] != 13)
    ensures Lines(text + line + [10]) == Lines(text) + [line]
    ensures Lines(text + line + [13, 10]) == Lines(text) + [line]
  {
    LinesSnoc(text, line);
    LinesSnoc(text, line + [CR]);
    assert text + line + [10] == text + (line + [LF]);
    assert text + line + [13, 10] == text + (line + [CR] + [LF]);
    assert (line + [CR])[..|line|] == line;
    hide LinesFrom;
  }

  // -- the bytes of a record line

  lemma EscapeCharHasNoLf(c: char)
    ensures '\n' !in EscapeChar(c)
  {}

  lemma {:induction false} EscapeHasNoLf(s: string)
    ensures '\n' !in Escape(s)
  {
    if s != [] {
      EscapeHasNoLf(s[1..]);
      EscapeCharHasNoLf(s[0]);
      hide EscapeChar;
    }
  }

  lemma {:induction false} EncodeHasNoLf(s: string)
    requires '\n' !in s
    ensures LF !in Encode(s)
  {
    if s != [] {
      EncodeHasNoLf(s[1..]);
      assert s[0] in s && LF !in EncodeChar(s[0]);
    }
  }

  lemma MemberHasNoLf(name: string, value: string)
    requires '\n' !in name && '\n' !in value
    ensures '\n' !in Member(name, value)
  {}

  lemma RecordLineBytes(r: Record)
    ensures LF !in Encode(RecordLine(r))
    ensures StripCr(Encode(RecordLine(r))) == Encode(RecordLine(r))
    ensures Encode(RecordLine(r)) != [] && Encode(RecordLine(r))[|Encode(RecordLine(r))| - 1] == 125
  {
    RecordLineHasNoLf(r);
    hide Member, JsonString, Decimal, BoolText;
    EncodeHasNoLf(RecordLine(r));
    var s := RecordLine(r);
    var body := s[..|s| - 1];
    assert s == body + "}";
    EncodeConcat(body, "}");
    EncodeAscii("}");
    assert Encode("}") == [125];
  }

  lemma RecordLineHasNoLf(r: Record)
    ensures '\n' !in RecordLine(r)
  {
    EscapeHasNoLf(r.time);
    EscapeHasNoLf(r.action);
    EscapeHasNoLf(r.target);
    EscapeHasNoLf(r.error);
    EscapeHasNoLf(r.prevHash);
    EscapeHasNoLf(r.hash);
    DigitsHaveNoLf(Decimal(r.uid));
    hide Escape, Decimal;
    MemberHasNoLf("time", JsonString(r.time));
    MemberHasNoLf("uid", Decimal(r.uid));
    MemberHasNoLf("action", JsonString(r.action));
    MemberHasNoLf("target", JsonString(r.target));
    MemberHasNoLf("ok", BoolText(r.ok));
    MemberHasNoLf("error", JsonString(r.error));
    MemberHasNoLf("prev_hash", JsonString(r.prevHash));
    MemberHasNoLf("hash", JsonString(r.hash));
    hide Member, JsonString;
  }

  lemma DigitsHaveNoLf(s: string)
    requires AllDigits(s)
    ensures '\n' !in s
  {
    forall i | 0 <= i < |s| ensures s[i] != '\n' { assert IsDigit(s[i]); }
  }

  // -- the appender finds the record it wrote last

  lemma WholeTextEndsLine(text: Bytes)
    requires text != [] && text[|text| - 1] == LF
    ensures WholeLines(text) == Some(text)
  {}

  /** A torn last line is cut off. */
  lemma {:induction false} CutTorn(front: Bytes, torn: Bytes)
    requires LF !in torn && EndsLine(front)
    ensures WholeLines(front + torn) == if front == [] then None else Some(front)
  {
    if torn == [] {
      assert front + torn == front;
    } else {
      var shorter := torn[..|torn| - 1];
      assert (front + torn)[..|front + torn| - 1] == front + shorter;
      assert torn[|torn| - 1] in torn;
      CutTorn(front, shorter);
    }
  }

  /** The window on a log with a torn last line: no line break, or the end of the whole lines. */
  lemma TornTail(front: Bytes, torn: Bytes)
    requires EndsLine(front) && front != [] && LF !in torn
    ensures ReadTail(front, torn) ==
            if |torn| >= TAIL_READ_BYTES then None else Some(LastBytes(front, TAIL_READ_BYTES - |torn|))
  {
    var log := front + torn;
    if |torn| >= TAIL_READ_BYTES {
      var end := torn[|torn| - TAIL_READ_BYTES..];
      assert Tail(log) == [] + end;
      CutTorn([], end);
    } else {
      var end := LastBytes(front, TAIL_READ_BYTES - |torn|);
      assert Tail(log) == end + torn;
      CutTorn(end, torn);
    }
  }

  function ReadTail(front: Bytes, torn: Bytes): Option<Bytes> {
    WholeLines(Tail(front + torn))
  }

  function LastBytes(s: Bytes, n: nat): Bytes {
    if |s| <= n then s else s[|s| - n..]
  }

  function ScanText(w: World, text: Bytes): Scan {
    ScanBack(ReadAll(w.lossy, Lines(text)))
  }

  lemma ScanFindsRecord(w: World, text: Bytes, r: Record)
    requires EndsLine(text) && ReadsRecords(w)
    ensures ScanText(w, text + LineBytes(r)) == Found(r.hash)
  {
    RecordLineBytes(r);
    var line := Encode(RecordLine(r));
    hide Encode, RecordLine, RecordFields;
    LinesSnoc(text, line);
    var lines := ReadAll(w.lossy, Lines(text + LineBytes(r)));
    assert w.lossy(line) == Json(Obj(RecordFields(r)));
    assert lines[|lines| - 1] == Json(Obj(RecordFields(r)));
    RecordMembers(r);
  }

  /** The record before the torn bytes gives the previous hash when both are in the window. */
  lemma LastHashAfter(w: World, text: Bytes, r: Record, torn: Bytes)
    requires EndsLine(text) && ReadsRecords(w) && LF !in torn
    requires |LineBytes(r)| + |torn| <= TAIL_READ_BYTES
    ensures ReadLastHash(w, text + LineBytes(r) + torn) == Ok(Some(r.hash))
  {
    hide LinesFrom, Lines, ScanBack, ReadsRecords, RecordLine, Encode, WholeLines, Tail;
    var front, n := text + LineBytes(r), TAIL_READ_BYTES - |torn|;
    TornTail(front, torn);
    var cut := if |front| <= n then 0 else |front| - n;
    assert LastBytes(front, n) == text[cut..] + LineBytes(r);
    ScanFindsRecord(w, text[cut..], r);
  }

  lemma RecordMembers(r: Record)
    ensures StringMember(RecordFields(r), "hash") == Some(r.hash)
    ensures StringMember(RecordFields(r), "prev_hash") == Some(r.prevHash)
  {}

  // -- what is recorded

  /** A call that is not refused appends a record about it, chained to the hash before it: 64
      zeros on an empty log. */
  lemma CallIsRecorded(w: World, log: Bytes, c: Call)
    requires AuditStep(w, log, c).Ok?
    ensures var r := AuditStep(w, log, c).value;
            && Records(r, c) && r.hash == w.hash(RecordCanonical(r))
            && (log == [] ==> |r.prevHash| == 64 && forall i :: 0 <= i < 64 ==> r.prevHash[i] == '0')
            && (ReadLastHash(w, log).value.Some? ==> r.prevHash == ReadLastHash(w, log).value.value)
  {
    hide ScanBack, WholeLines, RecordCanonical, LinesFrom;
    var last := ReadLastHash(w, log).value;
    NewRecordIsHashed(w, if last.Some? then last.value else GENESIS, c);
    GenesisIsZeros();
  }

  lemma GenesisIsZeros()
    ensures |GENESIS| == 64 && forall i :: 0 <= i < 64 ==> GENESIS[i] == '0'
  {}

  /** The last line of the log then is an object with these eight members, as the verifier reads it. */
  lemma LastLineTells(w: World, log: Bytes, c: Call)
    requires ReadsRecords(w) && EndsLine(log) && AuditStep(w, log, c).Ok?
    ensures var r := AuditStep(w, log, c).value;
            var lines := LogLines(w, log + LineBytes(r));
            lines != [] && IsObject(lines[|lines| - 1]) &&
            var fields := lines[|lines| - 1].value.fields;
            && fields.Keys == {"time", "uid", "action", "target", "ok", "error", "prev_hash", "hash"}
            && fields["time"] == Str(c.time) && fields["uid"] == Number(NumberOf(c.uid))
            && fields["action"] == Str(c.action) && fields["ok"] == Bool(c.ok)
            && fields["target"] == Str(c.target[..Min(|c.target|, 120)])
            && fields["error"] == Str(c.error[..Min(|c.error|, 500)])
            && fields["prev_hash"] == Str(r.prevHash) && fields["hash"] == Str(r.hash)
  {
    hide *;
    var r := AuditStep(w, log, c).value;
    CallIsRecorded(w, log, c);
    OneMoreLine(w, log, r);
    LastOf(LogLines(w, log), Json(Obj(RecordFields(r))));
    FieldsOf(r, c);
    IsAnObject(RecordFields(r));
  }

  lemma LastOf<T>(front: seq<T>, last: T)
    ensures (front + [last])[|front + [last]| - 1] == last
  {}

  lemma IsAnObject(fields: Fields)
    ensures IsObject(Json(Obj(fields))) && Json(Obj(fields)).value.fields == fields
  {}

  lemma FieldsOf(r: Record, c: Call)
    requires Records(r, c)
    ensures var fields := RecordFields(r);
            && fields.Keys == {"time", "uid", "action", "target", "ok", "error", "prev_hash", "hash"}
            && fields["time"] == Str(c.time) && fields["uid"] == Number(NumberOf(c.uid))
            && fields["action"] == Str(c.action) && fields["ok"] == Bool(c.ok)
            && fields["target"] == Str(c.target[..Min(|c.target|, 120)])
            && fields["error"] == Str(c.error[..Min(|c.error|, 500)])
            && fields["prev_hash"] == Str(r.prevHash) && fields["hash"] == Str(r.hash)
  {
    assert r.target == c.target[..Min(|c.target|, 120)] && r.error == c.error[..Min(|c.error|, 500)];
  }

  // -- runs are accepted

  /** The previous hash the call after these records will use. */
  function NextPrev(first: string, rs: seq<Record>): string {
    if rs == [] then first else rs[|rs| - 1].hash
  }

  /** What the verifier has after a legacy text and some records appended to it. */
  ghost predicate RunState(w: World, text: Bytes, first: string, rs: seq<Record>) {
    && EndsLine(text) && Unreadable !in LogLines(w, text)
    && Summarizes(CheckLines(w, LogLines(w, text)), first, rs)
  }

  predicate Summarizes(p: Progress, first: string, rs: seq<Record>) {
    && p.entries == |rs| && p.started == (rs != [])
    && p.prev == NextPrev(GENESIS, rs)
    && p.last == (if rs == [] then None else Some(rs[|rs| - 1].hash))
    && (p.problems == [] <==> rs == [] || first == GENESIS)
  }

  lemma {:induction false} LegacyLines(w: World, lines: seq<Line>)
    requires forall i :: 0 <= i < |lines| ==> IsPlainLine(lines[i])
    ensures CheckLines(w, lines) == START
  {
    if lines != [] {
      LegacyLines(w, lines[..|lines| - 1]);
      assert IsPlainLine(lines[|lines| - 1]);
    }
  }

  lemma StartState(w: World, base: Bytes, first: string)
    requires IsLegacy(w, base)
    ensures RunState(w, base, first, [])
  {
    var lines := LogLines(w, base);
    forall i | 0 <= i < |lines| ensures IsPlainLine(lines[i]) {
      assert lines[i] in lines;
    }
    LegacyLines(w, lines);
  }

  lemma CheckNewRecord(w: World, p: Progress, r: Record, lineno: nat)
    requires r.hash == w.hash(RecordCanonical(r))
    ensures CheckLine(w, p, Json(Obj(RecordFields(r))), lineno) ==
            Progress(p.entries + 1, true, r.hash, Some(r.hash),
                     p.problems + if r.prevHash != p.prev then [PrevMismatch(lineno)] else [])
  {
    HandOrderIsSorted(r);
    RecordMembers(r);
    hide RecordFields, HashedText, RecordCanonical;
  }

  lemma StepState(w: World, text: Bytes, first: string, rs: seq<Record>, r: Record)
    requires ReadsRecords(w)
    requires r.hash == w.hash(RecordCanonical(r)) && r.prevHash == NextPrev(first, rs)
    requires RunState(w, text, first, rs)
    ensures RunState(w, text + LineBytes(r), first, rs + [r])
  {
    LineEnds(text, r);
    OneMoreLine(w, text, r);
    var before, line := LogLines(w, text), Json(Obj(RecordFields(r)));
    hide *;
    CheckLinesSnoc(w, before, line);
    CheckNewRecord(w, CheckLines(w, before), r, |before| + 1);
    StateIs(w, text, first, rs);
    SummarizesStep(CheckLines(w, before), first, rs, r, |before| + 1);
    StateIs(w, text + LineBytes(r), first, rs + [r]);
  }

  lemma StateIs(w: World, text: Bytes, first: string, rs: seq<Record>)
    ensures RunState(w, text, first, rs) <==>
            && EndsLine(text) && Unreadable !in LogLines(w, text)
            && Summarizes(CheckLines(w, LogLines(w, text)), first, rs)
  {}

  lemma CheckLinesSnoc(w: World, lines: seq<Line>, line: Line)
    ensures CheckLines(w, lines + [line]) == CheckLine(w, CheckLines(w, lines), line, |lines| + 1)
  {
    hide CheckLine;
    assert (lines + [line])[..|lines|] == lines;
  }

  lemma SummarizesStep(p: Progress, first: string, rs: seq<Record>, r: Record, lineno: nat)
    requires Summarizes(p, first, rs) && r.prevHash == NextPrev(first, rs)
    ensures Summarizes(
              Progress(p.entries + 1, true, r.hash, Some(r.hash),
                       p.problems + if r.prevHash != p.prev then [PrevMismatch(lineno)] else []),
              first, rs + [r])
  {}

  lemma OneMoreLine(w: World, text: Bytes, r: Record)
    requires ReadsRecords(w) && EndsLine(text)
    ensures LogLines(w, text + LineBytes(r)) == LogLines(w, text) + [Json(Obj(RecordFields(r)))]
  {
    hide RecordFields, RecordLine, Encode, Lines;
    RecordLineBytes(r);
    var line := Encode(RecordLine(r));
    LinesSnoc(text, line);
    assert w.strict(line) == Json(Obj(RecordFields(r)));
  }

  lemma CanonicalIgnoresHash(r: Record, h: string)
    ensures RecordCanonical(r.(hash := h)) == RecordCanonical(r)
  {}

  lemma NewRecordIsHashed(w: World, prev: string, c: Call)
    ensures var r := NewRecord(w, prev, c);
            r.hash == w.hash(RecordCanonical(r)) && r.prevHash == prev
  {
    var u := Record(
      c.time, c.uid, c.action, TruncateChars(c.target, 120), c.ok, TruncateChars(c.error, 500), prev, []);
    CanonicalIgnoresHash(u, w.hash(RecordCanonical(u)));
    hide RecordCanonical;
  }

  /** Every run on a legacy base keeps the verifier's state in step with the records. */
  lemma {:induction false} RunKeepsState(w: World, base: Bytes, calls: seq<Call>, rs: seq<Record>)
    requires ReadsRecords(w) && IsLegacy(w, base)
    requires Run(w, base, calls) == Ok(rs) && FrontFits(rs)
    ensures |rs| == |calls| && RunState(w, base + Appended(rs), FirstPrev(w, base), rs)
    decreases |calls|
  {
    var first := FirstPrev(w, base);
    if calls == [] {
      StartState(w, base, first);
      assert base + Appended([]) == base;
    } else {
      var c, front := calls[|calls| - 1], calls[..|calls| - 1];
      var before, r := LastStep(w, base, calls, rs);
      hide Run, AuditStep, RunState, FrontFits, Fits, ReadsRecords, IsLegacy, FirstPrev, Appended;
      FrontFitsSnoc(before, r);
      RunKeepsState(w, base, front, before);
      StepKeepsState(w, base, before, c, r);
    }
  }

  lemma LastStep(w: World, base: Bytes, calls: seq<Call>, all: seq<Record>) returns (rs: seq<Record>, r: Record)
    requires calls != [] && Run(w, base, calls) == Ok(all)
    ensures Run(w, base, calls[..|calls| - 1]) == Ok(rs)
    ensures AuditStep(w, base + Appended(rs), calls[|calls| - 1]) == Ok(r)
    ensures all == rs + [r]
  {
    hide AuditStep, Appended;
    rs := Run(w, base, calls[..|calls| - 1]).value;
    r := AuditStep(w, base + Appended(rs), calls[|calls| - 1]).value;
  }

  lemma StepKeepsState(w: World, base: Bytes, rs: seq<Record>, c: Call, r: Record)
    requires ReadsRecords(w) && EndsLine(base) && AllFit(rs)
    requires RunState(w, base + Appended(rs), FirstPrev(w, base), rs)
    requires AuditStep(w, base + Appended(rs), c) == Ok(r)
    ensures RunState(w, base + Appended(rs + [r]), FirstPrev(w, base), rs + [r])
  {
    hide RunState, AllFit, Fits, ReadLastHash, NewRecord, LineBytes, ReadsRecords, EndsLine, FirstPrev;
    NextCallPrev(w, base, rs);
    var prev := NextPrev(FirstPrev(w, base), rs);
    assert r == NewRecord(w, prev, c);
    NewRecordIsHashed(w, prev, c);
    StepState(w, base + Appended(rs), FirstPrev(w, base), rs, r);
    AppendedLast(base, rs + [r]);
    assert (rs + [r])[..|rs|] == rs;
  }

  predicate AllFit(rs: seq<Record>) {
    forall i :: 0 <= i < |rs| ==> Fits(rs[i])
  }

  lemma FrontFitsSnoc(rs: seq<Record>, r: Record)
    ensures FrontFits(rs + [r]) <==> AllFit(rs)
    ensures AllFit(rs) ==> FrontFits(rs)
    ensures AllFit(rs + [r]) <==> AllFit(rs) && Fits(r)
  {
    hide Fits;
    forall i | 0 <= i < |rs| ensures rs[i] == (rs + [r])[i] {}
    assert r == (rs + [r])[|rs|];
  }

  /** The previous hash the first call on this base uses. */
  function FirstPrev(w: World, base: Bytes): string {
    var last := ReadLastHash(w, base);
    if last.Ok? && last.value.Some? then last.value.value else GENESIS
  }

  lemma NextCallPrev(w: World, base: Bytes, rs: seq<Record>)
    requires ReadsRecords(w) && AllFit(rs) && EndsLine(base)
    ensures var last := ReadLastHash(w, base + Appended(rs));
            last.Ok? ==> NextPrev(FirstPrev(w, base), rs) == if last.value.Some? then last.value.value else GENESIS
  {
    if rs == [] {
      assert base + Appended(rs) == base;
    } else {
      AppendedLast(base, rs);
      hide ReadLastHash, LineBytes, ReadsRecords, Appended, Fits;
      var front, r := rs[..|rs| - 1], rs[|rs| - 1];
      FrontFitsSnoc(front, r);
      FrontEndsLine(base, front);
      LastHashAfter(w, base + Appended(front), r, []);
      assert base + Appended(front) + LineBytes(r) + [] == base + Appended(front) + LineBytes(r);
    }
  }

  lemma AppendedLast(base: Bytes, rs: seq<Record>)
    requires rs != []
    ensures rs == rs[..|rs| - 1] + [rs[|rs| - 1]]
    ensures base + Appended(rs) == base + Appended(rs[..|rs| - 1]) + LineBytes(rs[|rs| - 1])
  {
    hide *;
    SplitLast(rs);
    var a, b := Appended(rs[..|rs| - 1]), LineBytes(rs[|rs| - 1]);
    assert Appended(rs) == a + b by { AppendedUnfolds(rs); }
    Behind(base, Appended(rs), a, b);
  }

  lemma SplitLast<T>(s: seq<T>)
    requires s != []
    ensures s == s[..|s| - 1] + [s[|s| - 1]]
  {}

  lemma Behind(base: Bytes, all: Bytes, a: Bytes, b: Bytes)
    requires all == a + b
    ensures base + all == base + a + b
  {
    ByteAssoc(base, a, b);
  }

  lemma AppendedUnfolds(rs: seq<Record>)
    requires rs != []
    ensures Appended(rs) == Appended(rs[..|rs| - 1]) + LineBytes(rs[|rs| - 1])
  {
    hide LineBytes;
  }

  lemma ByteAssoc(a: Bytes, b: Bytes, c: Bytes)
    ensures a + (b + c) == a + b + c
  {}

  lemma FrontEndsLine(base: Bytes, rs: seq<Record>)
    requires EndsLine(base)
    ensures EndsLine(base + Appended(rs))
  {
    hide Encode;
    if rs == [] { assert base + Appended(rs) == base; } else { AppendedLast(base, rs); }
  }

  /** Any number of calls that append to a legacy log, with every line but the last within
      the tail window: the log has one entry a call, and verifies exactly when the first
      call started from genesis and the anchor is the last hash. An anchor left behind by
      a failed head write shows until the next call. */
  lemma RunVerifies(w: World, base: Bytes, calls: seq<Call>, rs: seq<Record>, anchor: string)
    requires ReadsRecords(w) && HashesAreWords(w) && IsLegacy(w, base)
    requires calls != [] && Run(w, base, calls) == Ok(rs) && FrontFits(rs) && IsWord(anchor)
    ensures |rs| == |calls| && IsWord(rs[|rs| - 1].hash)
    ensures Verify(w, base + Appended(rs), HeadText(anchor + "\n"))
            == Verdict(FirstPrev(w, base) == GENESIS && anchor == rs[|rs| - 1].hash, |calls|, true)
  {
    RunKeepsState(w, base, calls, rs);
    RunHashes(w, base, calls, rs);
    hide *;
    StateVerifies(w, base + Appended(rs), FirstPrev(w, base), rs, anchor);
  }

  /** What the foreign JSON reader does with the end of a line the serializer wrote: no
      proper suffix of it is an object. */
  ghost predicate RefusesFragments(w: World) {
    forall r: Record, k :: 0 < k <= |Encode(RecordLine(r))| ==> !IsObject(w.lossy(Encode(RecordLine(r))[k..]))
  }

  predicate IsObject(line: Line) {
    line.Json? && line.value.Obj?
  }

  lemma ScanOfFragment(w: World, r: Record, k: nat)
    requires RefusesFragments(w) && 0 < k <= |Encode(RecordLine(r))|
    ensures ScanText(w, Encode(RecordLine(r))[k..] + [LF]) == Hashless(false)
  {
    RecordLineBytes(r);
    var line := Encode(RecordLine(r));
    var rest := line[k..];
    hide Encode, RecordLine;
    assert LF !in rest && StripCr(rest) == rest;
    OneLine([], rest);
    assert [] + rest == rest;
    assert !IsObject(w.lossy(line[k..]));
    var lines := ReadAll(w.lossy, Lines(rest + [LF]));
    assert lines == [w.lossy(rest)] && lines[..0] == [];
    assert ScanBack([]) == Hashless(false);
  }

  /** When the last whole line and the torn bytes after it, if any, exceed the tail window,
      no call succeeds. */
  lemma LongLineBlocks(w: World, text: Bytes, r: Record, torn: Bytes)
    requires RefusesFragments(w) && EndsLine(text) && LF !in torn
    requires |LineBytes(r)| + |torn| > TAIL_READ_BYTES
    ensures ReadLastHash(w, text + LineBytes(r) + torn) == Err
  {
    var line, front := Encode(RecordLine(r)), text + LineBytes(r);
    hide LinesFrom, Lines, ScanBack, RefusesFragments, RecordLine, Encode, WholeLines, Tail;
    TornTail(front, torn);
    if |torn| < TAIL_READ_BYTES {
      var n := TAIL_READ_BYTES - |torn|;
      var k := |line| + 1 - n;
      assert LastBytes(front, n) == line[k..] + [LF];
      ScanOfFragment(w, r, k);
    }
  }

  /** So every run of successful calls has lines within the window, but for its last one. */
  lemma {:induction false} RunsFit(w: World, base: Bytes, calls: seq<Call>, rs: seq<Record>)
    requires RefusesFragments(w) && EndsLine(base) && Run(w, base, calls) == Ok(rs)
    ensures FrontFits(rs)
    decreases |calls|
  {
    if calls == [] {
    } else {
      var before, r := LastStep(w, base, calls, rs);
      RunsFit(w, base, calls[..|calls| - 1], before);
      hide *;
      FrontFitsSnoc(before, r);
      StepFits(w, base, before, calls[|calls| - 1]);
    }
  }

  lemma StepFits(w: World, base: Bytes, rs: seq<Record>, c: Call)
    requires RefusesFragments(w) && EndsLine(base) && FrontFits(rs) && AuditStep(w, base + Appended(rs), c).Ok?
    ensures AllFit(rs)
  {
    if rs != [] {
      AppendedLast(base, rs);
      var front, last := rs[..|rs| - 1], rs[|rs| - 1];
      hide *;
      FrontFitsSnoc(front, last);
      FrontEndsLine(base, front);
      if !Fits(last) {
        LongLineRefuses(w, base + Appended(front), last, c);
      }
    }
  }

  lemma LongLineRefuses(w: World, text: Bytes, r: Record, c: Call)
    requires RefusesFragments(w) && EndsLine(text) && !Fits(r)
    ensures AuditStep(w, text + LineBytes(r), c) == Err
  {
    assert |LineBytes(r)| > TAIL_READ_BYTES;
    hide *;
    LongLineBlocks(w, text, r, []);
    assert text + LineBytes(r) + [] == text + LineBytes(r);
    StepAfter(w, text + LineBytes(r), c);
  }

  /** Any number of successful calls on a legacy log that starts from genesis leaves a log
      that verifies, with one entry a call and the last hash anchored. */
  lemma SuccessfulCallsVerify(w: World, base: Bytes, calls: seq<Call>, rs: seq<Record>)
    requires ReadsRecords(w) && RefusesFragments(w) && HashesAreWords(w) && IsLegacy(w, base)
    requires base == [] || NoHashInWindow(w, base)
    requires calls != [] && Run(w, base, calls) == Ok(rs)
    ensures |rs| == |calls|
    ensures Verify(w, base + Appended(rs), HeadText(rs[|rs| - 1].hash + "\n")) == Verdict(true, |calls|, true)
  {
    hide *;
    LegacyEndsLine(w, base);
    StartsAtGenesisExactly(w, base);
    RunsFit(w, base, calls, rs);
    RunHashes(w, base, calls, rs);
    RunVerifies(w, base, calls, rs, rs[|rs| - 1].hash);
  }

  lemma LegacyEndsLine(w: World, base: Bytes)
    requires IsLegacy(w, base)
    ensures EndsLine(base)
  {}

  lemma StateVerifies(w: World, text: Bytes, first: string, rs: seq<Record>, h: string)
    requires rs != [] && IsWord(h) && RunState(w, text, first, rs)
    ensures Verify(w, text, HeadText(h + "\n")) == Verdict(first == GENESIS && h == rs[|rs| - 1].hash, |rs|, true)
  {
    hide CheckLines, LogLines, Anchor, Finish, IsWord, EndsLine, Lines;
    AnchorOfHash(h);
    FinishAnchored(CheckLines(w, LogLines(w, text)), HeadText(h + "\n"), h);
  }

  lemma FinishAnchored(p: Progress, head: Head, h: string)
    requires p.last.Some? && Anchor(head) == Some(h) && !head.HeadError?
    ensures Finish(p, head) == Verdict(p.problems == [] && p.last == Some(h), p.entries, true)
  {
    hide Anchor;
    assert p.problems + [] + [] == p.problems;
  }

  lemma RunHashes(w: World, base: Bytes, calls: seq<Call>, rs: seq<Record>)
    requires HashesAreWords(w) && calls != [] && Run(w, base, calls) == Ok(rs)
    ensures rs != [] && IsWord(rs[|rs| - 1].hash)
  {
    var before, r := LastStep(w, base, calls, rs);
    hide ReadLastHash, RecordCanonical, IsWord;
  }

  lemma AnchorOfHash(h: string)
    requires IsWord(h)
    ensures Anchor(HeadText(h + "\n")) == Some(h)
  {
    var s := h + "\n";
    assert s[0] == h[0];
    assert TrimStartBy(s, IsWhitespace) == s;
    assert s[|s| - 1] == '\n' && s[..|s| - 1] == h;
    assert IsWhitespace('\n');
    assert TrimEndBy(s, IsWhitespace) == TrimEndBy(h, IsWhitespace) == h;
  }

  /** A call on a log whose last line is torn joins its record to the torn bytes; whatever is
      appended later and whatever the head, the log then never verifies, unless the two
      together read as an object or as blank. */
  lemma TornLineBreaksLog(w: World, base: Bytes, torn: Bytes, r: Record, more: Bytes, head: Head)
    requires EndsLine(base) && torn != [] && LF !in torn
    requires Verify(w, base + torn + LineBytes(r) + more, head).ok
    ensures var joined := w.strict(torn + Encode(RecordLine(r))); joined.Blank? || IsObject(joined)
  {
    var line := torn + Encode(RecordLine(r));
    RecordLineBytes(r);
    hide Encode, RecordLine, Lines;
    var front := base + (line + [LF]);
    assert base + torn + LineBytes(r) + more == front + more;
    assert StripCr(line) == line;
    LinesSnoc(base, line);
    LinesAppend(front, more);
    var lines := LogLines(w, front + more);
    assert lines[|Lines(base)|] == w.strict(line);
    VerifyExact(w, lines, head);
  }

  /** What the foreign JSON reader does with a line that a failed append began and a later
      record ended: it is neither blank nor an object. */
  ghost predicate RefusesJoined(w: World) {
    forall t: Record, r: Record, k :: 0 < k <= |Encode(RecordLine(t))| ==>
      var joined := w.strict(Encode(RecordLine(t))[..k] + Encode(RecordLine(r)));
      !joined.Blank? && !IsObject(joined)
  }

  /** An append that fails after some bytes of its line: the next call succeeds exactly when
      those bytes and the record before them are within the tail window. It then goes on from
      that record, and the log never verifies again. */
  lemma FailedAppendBreaksLog(w: World, text: Bytes, last: Record, t: Record, kept: nat, c: Call,
                              more: Bytes, head: Head)
    requires ReadsRecords(w) && RefusesFragments(w) && RefusesJoined(w) && EndsLine(text)
    requires 0 < kept < |LineBytes(t)|
    ensures var log := text + LineBytes(last) + WrittenPart(LineBytes(t), AppendFails(kept));
            var step := AuditStep(w, log, c);
            && (step.Ok? <==> |LineBytes(last)| + kept <= 262144)
            && (step.Ok? ==> step == Ok(NewRecord(w, last.hash, c))
                             && !Verify(w, log + LineBytes(step.value) + more, head).ok)
  {
    assert TAIL_READ_BYTES == 262144;
    hide *;
    var torn := TornBytes(t, kept);
    var log := text + LineBytes(last) + torn;
    if |LineBytes(last)| + kept <= TAIL_READ_BYTES {
      LastHashAfter(w, text, last, torn);
      StepAfter(w, log, c);
      var r := NewRecord(w, last.hash, c);
      LineEnds(text, last);
      if Verify(w, log + LineBytes(r) + more, head).ok {
        TornLineBreaksLog(w, text + LineBytes(last), torn, r, more, head);
        JoinedIsRefused(w, t, r, kept);
      }
    } else {
      LongLineBlocks(w, text, last, torn);
      StepAfter(w, log, c);
    }
  }

  lemma TornBytes(t: Record, kept: nat) returns (torn: Bytes)
    requires 0 < kept < |LineBytes(t)|
    ensures torn == WrittenPart(LineBytes(t), AppendFails(kept))
    ensures kept <= |Encode(RecordLine(t))| && torn == Encode(RecordLine(t))[..kept]
    ensures |torn| == kept && torn != [] && LF !in torn
  {
    RecordLineBytes(t);
    hide Encode, RecordLine;
    torn := Encode(RecordLine(t))[..kept];
  }

  lemma JoinedIsRefused(w: World, t: Record, r: Record, k: nat)
    requires RefusesJoined(w) && 0 < k <= |Encode(RecordLine(t))|
    ensures var joined := w.strict(Encode(RecordLine(t))[..k] + Encode(RecordLine(r)));
            !joined.Blank? && !IsObject(joined)
  {
    hide Encode, RecordLine;
  }

  lemma StepAfter(w: World, log: Bytes, c: Call)
    ensures var last := ReadLastHash(w, log);
            AuditStep(w, log, c) ==
            if last.Err? then Err else Ok(NewRecord(w, if last.value.Some? then last.value.value else GENESIS, c))
  {
    hide ReadLastHash, NewRecord;
  }

  lemma LineEnds(text: Bytes, r: Record)
    ensures EndsLine(text + LineBytes(r))
  {
    hide Encode, RecordLine;
  }

  /** When it was the first append of all that failed, no call ever succeeds again. */
  lemma FailedFirstAppendBlocks(w: World, t: Record, kept: nat, c: Call)
    requires 0 < kept < |LineBytes(t)|
    ensures AuditStep(w, WrittenPart(LineBytes(t), AppendFails(kept)), c) == Err
  {
    var torn := TornBytes(t, kept);
    hide LineBytes, WrittenPart, ScanBack, WholeLines, Encode, RecordLine;
    assert [] + Tail(torn) == Tail(torn);
    CutTorn([], Tail(torn));
  }

  lemma LinesAppend(a: Bytes, b: Bytes)
    requires a != [] && a[|a| - 1] == LF
    ensures Lines(a + b) == Lines(a) + Lines(b)
  {
    LinesConcat([], a, b);
  }

  /** The lines of the tail window as the appender reads them. */
  function Window(w: World, base: Bytes): seq<Line> {
    ReadAll(w.lossy, Lines(Tail(base)))
  }

  predicate HasHash(line: Line) {
    IsObject(line) && StringMember(line.value.fields, "hash").Some?
  }

  /** The tail window of a base shows no hash, though its first line may be cut. */
  predicate NoHashInWindow(w: World, base: Bytes) {
    forall line :: line in Window(w, base) ==> !HasHash(line)
  }

  /** On whole lines of any total length: the chain starts from genesis without an error
      exactly when there are none, or the window shows some object but no hash. */
  lemma StartsAtGenesisExactly(w: World, base: Bytes)
    requires EndsLine(base)
    ensures ReadLastHash(w, base) == Ok(None) <==>
            base == [] || (NoHashInWindow(w, base) && exists line :: line in Window(w, base) && IsObject(line))
    ensures base == [] || NoHashInWindow(w, base) ==> FirstPrev(w, base) == GENESIS
  {
    if base != [] {
      assert Tail(base)[|Tail(base)| - 1] == LF;
      WholeTextEndsLine(Tail(base));
      ScanBackMeans(Window(w, base));
    }
  }

  /** The scan finds a hash exactly when a line has one, and otherwise tells whether there was an object. */
  lemma {:induction false} ScanBackMeans(lines: seq<Line>)
    ensures ScanBack(lines).Found? <==> exists line :: line in lines && HasHash(line)
    ensures ScanBack(lines).Hashless? ==>
              (ScanBack(lines).sawObject <==> exists line :: line in lines && IsObject(line))
  {
    if lines != [] {
      var front, last := lines[..|lines| - 1], lines[|lines| - 1];
      assert lines == front + [last] && last in lines;
      ScanBackMeans(front);
      forall line | line in front ensures line in lines {}
      forall line | line in lines ensures line in front || line == last {}
      if line :| line in front && HasHash(line) { assert line in lines && HasHash(line); }
      if line :| line in front && IsObject(line) { assert line in lines && IsObject(line); }
    }
  }
}
