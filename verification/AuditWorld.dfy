/** The foreign JSON reader the audit log relies on can exist: record lines are distinct,
    and none of them ends in another. */
module AuditWorld {
  import opened Common
  import opened Text
  import opened Json
  import opened Utf8
  import opened AuditLog
  import JsonReader

  // ---------------------------------------------------------------- a line from its pieces

  function Piece(name: string, value: string): string {
    Member(name, value) + ","
  }

  function FromHash(r: Record): string {
    Member("hash", JsonString(r.hash)) + "}"
  }

  function FromPrev(r: Record): string {
    Piece("prev_hash", JsonString(r.prevHash)) + FromHash(r)
  }

  function FromError(r: Record): string {
    Piece("error", JsonString(r.error)) + FromPrev(r)
  }

  function FromOk(r: Record): string {
    Piece("ok", BoolText(r.ok)) + FromError(r)
  }

  function FromTarget(r: Record): string {
    Piece("target", JsonString(r.target)) + FromOk(r)
  }

  function FromAction(r: Record): string {
    Piece("action", JsonString(r.action)) + FromTarget(r)
  }

  function FromUid(r: Record): string {
    Piece("uid", Decimal(r.uid)) + FromAction(r)
  }

  function FromTime(r: Record): string {
    Piece("time", JsonString(r.time)) + FromUid(r)
  }

  lemma Shift(front: string, member: string, rest: string)
    ensures front + ((member + ",") + rest) == (front + member + ",") + rest
  {}

  lemma LineFromPieces(r: Record)
    ensures RecordLine(r) == "{" + FromTime(r)
  {
    var a, b := Member("time", JsonString(r.time)), Member("uid", Decimal(r.uid));
    var c, d := Member("action", JsonString(r.action)), Member("target", JsonString(r.target));
    var e, f := Member("ok", BoolText(r.ok)), Member("error", JsonString(r.error));
    var g, h := Member("prev_hash", JsonString(r.prevHash)), Member("hash", JsonString(r.hash));
    hide Member, JsonString, Decimal, BoolText;
    LineAssembles("{", a, b, c, d, e, f, g, h + "}");
    LastJoined("{" + a + "," + b + "," + c + "," + d + "," + e + "," + f + "," + g + ",", h, "}");
  }

  lemma LastJoined(front: string, a: string, b: string)
    ensures front + (a + b) == front + a + b
  {}

  lemma LineAssembles(open: string, a: string, b: string, c: string, d: string, e: string, f: string, g: string,
                      h: string)
    ensures open + ((a + ",") + ((b + ",") + ((c + ",") + ((d + ",") + ((e + ",") + ((f + ",") + ((g + ",") + h)))))))
            == open + a + "," + b + "," + c + "," + d + "," + e + "," + f + "," + g + "," + h
  {
    var fromG := (g + ",") + h;
    var fromF := (f + ",") + fromG;
    var fromE := (e + ",") + fromF;
    var fromD := (d + ",") + fromE;
    var fromC := (c + ",") + fromD;
    var fromB := (b + ",") + fromC;
    Shift(open, a, fromB);
    var x := open + a + ",";
    Shift(x, b, fromC);
    x := x + b + ",";
    Shift(x, c, fromD);
    x := x + c + ",";
    Shift(x, d, fromE);
    x := x + d + ",";
    Shift(x, e, fromF);
    x := x + e + ",";
    Shift(x, f, fromG);
    x := x + f + ",";
    Shift(x, g, h);
  }

  // ---------------------------------------------------------------- a line determines its record

  lemma SameFront(front: string, x: string, y: string)
    requires front + x == front + y
    ensures x == y
  {
    assert (front + x)[|front|..] == x && (front + y)[|front|..] == y;
  }

  lemma PieceShape(name: string, value: string, rest: string)
    ensures Piece(name, value) + rest == ("\"" + name + "\":") + (value + ("," + rest))
  {
    var front := "\"" + name + "\":";
    assert Member(name, value) == front + value;
    ThreeJoined(front, value, ",", rest);
  }

  lemma ThreeJoined(a: string, b: string, c: string, d: string)
    ensures ((a + b) + c) + d == a + (b + (c + d))
  {}

  lemma TextPiece(name: string, a: string, b: string, x: string, y: string)
    requires Piece(name, JsonString(a)) + x == Piece(name, JsonString(b)) + y
    ensures a == b && x == y
  {
    PieceShape(name, JsonString(a), x);
    PieceShape(name, JsonString(b), y);
    hide *;
    SameFront("\"" + name + "\":", JsonString(a) + ("," + x), JsonString(b) + ("," + y));
    JsonStringReads(a, b, "," + x, "," + y);
    SameFront(",", x, y);
  }

  lemma UidPiece(a: Uid, b: Uid, x: string, y: string)
    requires Piece("uid", Decimal(a)) + x == Piece("uid", Decimal(b)) + y
    ensures a == b && x == y
  {
    PieceShape("uid", Decimal(a), x);
    PieceShape("uid", Decimal(b), y);
    DecimalValue(a);
    DecimalValue(b);
    assert Stops("," + x) && Stops("," + y);
    hide Piece, Decimal, NumberValue, Stops;
    assert "\"" + "uid" + "\":" == "\"uid\":";
    SameFront("\"uid\":", Decimal(a) + ("," + x), Decimal(b) + ("," + y));
    NumberReads(NumberOf(a), NumberOf(b), "," + x, "," + y);
    SameFront(",", x, y);
  }

  lemma OkPiece(a: bool, b: bool, x: string, y: string)
    requires Piece("ok", BoolText(a)) + x == Piece("ok", BoolText(b)) + y
    ensures a == b && x == y
  {
    PieceShape("ok", BoolText(a), x);
    PieceShape("ok", BoolText(b), y);
    hide Piece, Member;
    assert "\"" + "ok" + "\":" == "\"ok\":";
    SameFront("\"ok\":", BoolText(a) + ("," + x), BoolText(b) + ("," + y));
    assert (BoolText(a) + ("," + x))[0] == BoolText(a)[0] && (BoolText(b) + ("," + y))[0] == BoolText(b)[0];
    SameFront(BoolText(a), "," + x, "," + y);
    SameFront(",", x, y);
  }

  lemma HashPiece(a: string, b: string)
    requires Member("hash", JsonString(a)) + "}" == Member("hash", JsonString(b)) + "}"
    ensures a == b
  {
    var front := "\"hash\":";
    assert Member("hash", JsonString(a)) + "}" == front + (JsonString(a) + "}");
    assert Member("hash", JsonString(b)) + "}" == front + (JsonString(b) + "}");
    hide *;
    SameFront(front, JsonString(a) + "}", JsonString(b) + "}");
    JsonStringReads(a, b, "}", "}");
  }

  /** Distinct records have distinct lines. */
  lemma LineDeterminesRecord(r: Record, s: Record)
    requires RecordLine(r) == RecordLine(s)
    ensures r == s
  {
    LineFromPieces(r);
    LineFromPieces(s);
    hide RecordLine, Piece, Member, JsonString, Decimal, BoolText;
    SameFront("{", FromTime(r), FromTime(s));
    TextPiece("time", r.time, s.time, FromUid(r), FromUid(s));
    UidPiece(r.uid, s.uid, FromAction(r), FromAction(s));
    TextPiece("action", r.action, s.action, FromTarget(r), FromTarget(s));
    TextPiece("target", r.target, s.target, FromOk(r), FromOk(s));
    OkPiece(r.ok, s.ok, FromError(r), FromError(s));
    TextPiece("error", r.error, s.error, FromPrev(r), FromPrev(s));
    TextPiece("prev_hash", r.prevHash, s.prevHash, FromHash(r), FromHash(s));
    HashPiece(r.hash, s.hash);
  }

  // ---------------------------------------------------------------- a line is JSON text

  const DECLARED_ORDER: seq<string> := ["time", "uid", "action", "target", "ok", "error", "prev_hash", "hash"]

  /** A JSON reader takes a line for the object with the record's fields, and nothing is left. */
  lemma LineIsRead(r: Record)
    ensures JsonReader.ReadValue(RecordLine(r)) == JsonReader.Got(Obj(RecordFields(r)), "")
  {
    var v := Obj(RecordFields(r));
    LineIsMembers(r);
    FieldNames(r);
    hide *;
    JsonReader.MembersInAnyOrder(v, DECLARED_ORDER, "");
    assert "{" + PairsText(v, DECLARED_ORDER) + "" == "{" + PairsText(v, DECLARED_ORDER);
  }

  lemma FieldNames(r: Record)
    ensures forall k :: k in DECLARED_ORDER <==> k in Obj(RecordFields(r)).fields
  {}

  lemma FieldTexts(r: Record)
    ensures var f := RecordFields(r);
            && f.Keys == {"time", "uid", "action", "target", "ok", "error", "prev_hash", "hash"}
            && Canon(f["action"]) == JsonString(r.action) && Canon(f["error"]) == JsonString(r.error)
            && Canon(f["ok"]) == BoolText(r.ok) && Canon(f["prev_hash"]) == JsonString(r.prevHash)
            && Canon(f["target"]) == JsonString(r.target) && Canon(f["time"]) == JsonString(r.time)
            && Canon(f["uid"]) == Decimal(r.uid) && Canon(f["hash"]) == JsonString(r.hash)
  {
    hide JsonString, Decimal;
  }

  lemma LineIsMembers(r: Record)
    ensures forall k :: k in DECLARED_ORDER ==> k in Obj(RecordFields(r)).fields
    ensures RecordLine(r) == "{" + PairsText(Obj(RecordFields(r)), DECLARED_ORDER)
  {
    var v := Obj(RecordFields(r));
    FieldTexts(r);
    hide Canon, RecordFields, JsonString, MorePairs, PairsText, Decimal, BoolText, Member;
    Peel(v, "hash", []);
    var k7 := ["hash"] + [];
    Peel(v, "prev_hash", k7);
    var k6 := ["prev_hash"] + k7;
    Peel(v, "error", k6);
    var k5 := ["error"] + k6;
    Peel(v, "ok", k5);
    var k4 := ["ok"] + k5;
    Peel(v, "target", k4);
    var k3 := ["target"] + k4;
    Peel(v, "action", k3);
    var k2 := ["action"] + k3;
    Peel(v, "uid", k2);
    var k1 := ["uid"] + k2;
    Peel(v, "time", k1);
    assert ["time"] + k1 == DECLARED_ORDER;
    NoMorePairs(v);
    AssembleEight("{", ",", "}", Member("time", JsonString(r.time)), Member("uid", Decimal(r.uid)),
                  Member("action", JsonString(r.action)), Member("target", JsonString(r.target)),
                  Member("ok", BoolText(r.ok)), Member("error", JsonString(r.error)),
                  Member("prev_hash", JsonString(r.prevHash)), Member("hash", JsonString(r.hash)));
  }

  lemma AssembleEight(open: string, comma: string, close: string, a: string, b: string, c: string, d: string,
                      e: string, f: string, g: string, h: string)
    ensures open + (a + (comma + b + (comma + c + (comma + d + (comma + e + (comma + f + (comma + g + (comma + h
            + close)))))))) ==
            open + a + comma + b + comma + c + comma + d + comma + e + comma + f + comma + g + comma + h + close
  {
    var last := comma + h + close;
    Assemble(open, comma, last, a, b, c, d, e, f, g);
    var front := open + a + comma + b + comma + c + comma + d + comma + e + comma + f + comma + g;
    Regroup(front, comma, h, close);
  }

  // ---------------------------------------------------------------- no line inside a line

  /** A brace here is followed by something, and a brace and a quote by something else than `t`. */
  predicate NoStartAt(s: string, i: nat)
    requires i < |s|
  {
    s[i] == '{' ==> i + 1 < |s| && (s[i + 1] == '"' ==> i + 2 < |s| && s[i + 2] != 't')
  }

  predicate NoStart(s: string) {
    forall i :: 0 <= i < |s| ==> NoStartAt(s, i)
  }

  lemma NoStartConcat(a: string, b: string)
    requires NoStart(a) && NoStart(b)
    ensures NoStart(a + b)
  {
    var s := a + b;
    forall i | 0 <= i < |s| ensures NoStartAt(s, i) {
      if i < |a| {
        assert NoStartAt(a, i);
      } else {
        var j := i - |a|;
        assert NoStartAt(b, j);
        assert s[i] == b[j] && (j + 1 < |b| ==> s[i + 1] == b[j + 1]) && (j + 2 < |b| ==> s[i + 2] == b[j + 2]);
      }
    }
  }

  lemma EscapeCharQuote(c: char)
    ensures forall i :: 0 <= i < |EscapeChar(c)| && EscapeChar(c)[i] == '"' ==> i > 0 && EscapeChar(c)[i - 1] == '\\'
  {}

  /** Escaped text has a quote only after a backslash. */
  lemma {:induction false} EscapeQuote(s: string)
    ensures forall i :: 0 <= i < |Escape(s)| && Escape(s)[i] == '"' ==> i > 0 && Escape(s)[i - 1] == '\\'
  {
    if s != [] {
      EscapeQuote(s[1..]);
      EscapeCharQuote(s[0]);
      hide EscapeChar;
    }
  }

  lemma StringNoStart(s: string, sep: string)
    requires |sep| == 1 && sep[0] in {',', '}'}
    ensures NoStart(JsonString(s) + sep)
  {
    EscapeQuote(s);
    var e := Escape(s);
    hide Escape;
    var t := JsonString(s) + sep;
    assert t == "\"" + e + "\"" + sep;
    forall i | 0 <= i < |t| ensures NoStartAt(t, i) {
      if t[i] == '{' {
        assert 1 <= i <= |e| && e[i - 1] == '{';
      }
    }
  }

  lemma NoBrace(s: string)
    requires '{' !in s
    ensures NoStart(s)
  {}

  lemma TextNoStart(name: string, s: string, rest: string)
    requires '{' !in name && NoStart(rest)
    ensures NoStart(Piece(name, JsonString(s)) + rest)
  {
    StringNoStart(s, ",");
    PieceSplit(name, JsonString(s));
    hide Piece, JsonString;
    NoBrace("\"" + name + "\":");
    NoStartConcat("\"" + name + "\":", JsonString(s) + ",");
    NoStartConcat(Piece(name, JsonString(s)), rest);
  }

  lemma PieceSplit(name: string, value: string)
    ensures Piece(name, value) == ("\"" + name + "\":") + (value + ",")
  {
    LastJoined("\"" + name + "\":", value, ",");
  }

  lemma PlainNoStart(name: string, value: string, rest: string)
    requires '{' !in name && '{' !in value && NoStart(rest)
    ensures NoStart(Piece(name, value) + rest)
  {
    NoBrace(Piece(name, value));
    NoStartConcat(Piece(name, value), rest);
  }

  lemma DigitsNoBrace(s: string)
    requires AllDigits(s)
    ensures '{' !in s
  {
    forall i | 0 <= i < |s| ensures s[i] != '{' { assert IsDigit(s[i]); }
  }

  /** After its first character a line starts no line. */
  lemma LineNoStart(r: Record)
    ensures NoStart(FromTime(r))
  {
    var front := "\"hash\":";
    assert FromHash(r) == front + (JsonString(r.hash) + "}");
    StringNoStart(r.hash, "}");
    DigitsNoBrace(Decimal(r.uid));
    assert '{' !in BoolText(r.ok);
    hide Piece, Member, JsonString, Decimal, BoolText, NoStart;
    NoBrace(front);
    NoStartConcat(front, JsonString(r.hash) + "}");
    TextNoStart("prev_hash", r.prevHash, FromHash(r));
    TextNoStart("error", r.error, FromPrev(r));
    PlainNoStart("ok", BoolText(r.ok), FromError(r));
    TextNoStart("target", r.target, FromOk(r));
    TextNoStart("action", r.action, FromTarget(r));
    PlainNoStart("uid", Decimal(r.uid), FromAction(r));
    TextNoStart("time", r.time, FromUid(r));
  }

  lemma LineStart(r: Record)
    ensures |RecordLine(r)| > 2 && RecordLine(r)[0] == '{' && RecordLine(r)[1] == '"' && RecordLine(r)[2] == 't'
  {
    LineFromPieces(r);
    var value, rest := JsonString(r.time), FromUid(r);
    hide RecordLine, JsonString, FromUid;
    PieceShape("time", value, rest);
    hide Piece;
    assert FromTime(r) == "\"time\":" + (value + ("," + rest));
  }

  /** No proper suffix of a line is a line. */
  lemma NoLineInLine(r: Record, s: Record, k: nat)
    requires 0 < k <= |RecordLine(r)|
    ensures RecordLine(r)[k..] != RecordLine(s)
  {
    LineFromPieces(r);
    LineNoStart(r);
    LineStart(s);
    hide RecordLine, FromTime;
    var tail := FromTime(r);
    var suffix := RecordLine(r)[k..];
    assert suffix == tail[k - 1..];
    if |suffix| > 2 {
      assert NoStartAt(tail, k - 1);
      assert suffix[0] == tail[k - 1] && suffix[1] == tail[k] && suffix[2] == tail[k + 1];
    }
  }

  /** Nor is the end of a line's bytes, cut anywhere. */
  lemma {:induction false} SuffixOfBytes(s: string, k: nat, t: string)
    requires k <= |Encode(s)| && Encode(s)[k..] == Encode(t) && t != [] && t[0] < '\U{80}'
    ensures exists i :: 0 <= i <= |s| && i <= k && (k > 0 ==> i > 0) && s[i..] == t
  {
    if k == 0 {
      assert Encode(s)[0..] == Encode(s);
      EncodeInjective(s, t);
      assert s[0..] == t;
    } else {
      var n := |EncodeChar(s[0])|;
      SplitFirst(s, k);
      FirstByte(t);
      hide Encode;
      if k < n {
        TrailingByte(s[0], k);
      } else {
        SuffixOfBytes(s[1..], k - n, t);
        var i :| 0 <= i <= |s[1..]| && i <= k - n && s[1..][i..] == t;
        assert s[i + 1..] == t;
      }
    }
  }

  lemma FirstByte(t: string)
    requires t != [] && t[0] < '\U{80}'
    ensures Encode(t) != [] && Encode(t)[0] < 128
  {
    assert Encode(t)[0] == EncodeChar(t[0])[0];
  }

  lemma SplitFirst(s: string, k: nat)
    requires s != [] && k <= |Encode(s)|
    ensures var n := |EncodeChar(s[0])|;
            if k < n then Encode(s)[k..] != [] && Encode(s)[k..][0] == EncodeChar(s[0])[k]
            else k - n <= |Encode(s[1..])| && Encode(s)[k..] == Encode(s[1..])[k - n..]
  {
    var first, more := EncodeChar(s[0]), Encode(s[1..]);
    assert Encode(s) == first + more;
    hide EncodeChar, Encode;
    DropJoined(first, more, k);
  }

  lemma DropJoined(a: Bytes, b: Bytes, k: nat)
    requires k <= |a| + |b|
    ensures if k < |a| then (a + b)[k..] != [] && (a + b)[k..][0] == a[k] else (a + b)[k..] == b[k - |a|..]
  {}

  lemma TrailingByte(c: char, k: nat)
    requires 0 < k < |EncodeChar(c)|
    ensures EncodeChar(c)[k] >= 128
  {}

  // ---------------------------------------------------------------- the reader

  /** A reader that knows record lines and nothing else. */
  ghost function ReadLine(b: Bytes): Line {
    if r: Record :| Encode(RecordLine(r)) == b then Json(Obj(RecordFields(r))) else NotJson
  }

  ghost function TheWorld(): World {
    World(_ => "0", ReadLine, ReadLine)
  }

  /** All that the theorems on runs assume of the foreign code can hold together, and a
      first call on an empty log then succeeds. */
  lemma AssumptionsCanHold(c: Call)
    ensures exists w ::
              && ReadsRecords(w) && RefusesFragments(w) && RefusesJoined(w) && HashesAreWords(w)
              && Run(w, [], [c]).Ok?
  {
    var w := TheWorld();
    TheWorldReads();
    assert HashesAreWords(w);
    FirstCallSucceeds(w, c);
  }

  lemma TheWorldReads()
    ensures ReadsRecords(TheWorld()) && RefusesFragments(TheWorld()) && RefusesJoined(TheWorld())
  {
    var w := TheWorld();
    hide RecordLine, Encode, RecordFields;
    forall r: Record ensures ReadLine(Encode(RecordLine(r))) == Json(Obj(RecordFields(r))) {
      OwnLineReads(r);
    }
    assert ReadsRecords(w);
    forall r: Record, k | 0 < k <= |Encode(RecordLine(r))|
      ensures !IsObject(w.lossy(Encode(RecordLine(r))[k..]))
    {
      FragmentIsNoLine(r, k);
    }
    assert RefusesFragments(w);
    forall t: Record, r: Record, k | 0 < k <= |Encode(RecordLine(t))|
      ensures w.strict(Encode(RecordLine(t))[..k] + Encode(RecordLine(r))) == NotJson
    {
      JoinedIsNoLine(Encode(RecordLine(t))[..k], r);
    }
    assert RefusesJoined(w);
  }

  lemma FirstCallSucceeds(w: World, c: Call)
    ensures Run(w, [], [c]).Ok?
  {
    hide NewRecord;
    assert [c][..0] == [] && [] + Appended([]) == [];
    assert Run(w, [], []) == Ok([]);
  }

  lemma OwnLineReads(r: Record)
    ensures ReadLine(Encode(RecordLine(r))) == Json(Obj(RecordFields(r)))
  {
    hide RecordLine, Encode, RecordFields;
    var b := Encode(RecordLine(r));
    forall s: Record | Encode(RecordLine(s)) == b ensures s == r {
      EncodeInjective(RecordLine(s), RecordLine(r));
      LineDeterminesRecord(s, r);
    }
  }

  lemma FragmentIsNoLine(r: Record, k: nat)
    requires 0 < k <= |Encode(RecordLine(r))|
    ensures ReadLine(Encode(RecordLine(r))[k..]) == NotJson
  {
    hide RecordLine, Encode;
    forall s: Record ensures Encode(RecordLine(s)) != Encode(RecordLine(r))[k..] {
      LineStart(s);
      if Encode(RecordLine(s)) == Encode(RecordLine(r))[k..] {
        SuffixOfBytes(RecordLine(r), k, RecordLine(s));
        var i :| 0 < i <= |RecordLine(r)| && RecordLine(r)[i..] == RecordLine(s);
        NoLineInLine(r, s, i);
      }
    }
  }

  /** A record line behind other bytes is no record line, since it would end in one. */
  lemma JoinedIsNoLine(front: Bytes, r: Record)
    requires front != []
    ensures ReadLine(front + Encode(RecordLine(r))) == NotJson
  {
    hide RecordLine, Encode, RecordFields;
    var joined := front + Encode(RecordLine(r));
    assert joined[|front|..] == Encode(RecordLine(r));
    forall s: Record ensures Encode(RecordLine(s)) != joined {
      if Encode(RecordLine(s)) == joined {
        FragmentIsNoLine(s, |front|);
        OwnLineReads(r);
      }
    }
  }

  lemma {:induction false} EncodedLength(s: string)
    ensures |s| <= |Encode(s)| <= 4 * |s|
  {
    if s != [] {
      EncodedLength(s[1..]);
      hide EncodeChar;
    }
  }

  lemma {:induction false} EscapedLength(s: string)
    ensures |Escape(s)| <= 6 * |s|
  {
    if s != [] {
      EscapedLength(s[1..]);
      assert |EscapeChar(s[0])| <= 6;
      hide EscapeChar;
    }
  }

  lemma MemberLength(name: string, value: string)
    ensures |Member(name, value)| == |name| + |value| + 3
  {}

  lemma TextLength(name: string, s: string)
    ensures |Member(name, JsonString(s))| <= |name| + 6 * |s| + 5
  {
    EscapedLength(s);
    MemberLength(name, JsonString(s));
  }

  lemma LineLength(r: Record)
    ensures 0 < |RecordLine(r)| <=
            90 + 6 * (|r.time| + |r.action| + |r.target| + |r.error| + |r.prevHash| + |r.hash|) + |Decimal(r.uid)|
  {
    TextLength("time", r.time);
    MemberLength("uid", Decimal(r.uid));
    TextLength("action", r.action);
    TextLength("target", r.target);
    MemberLength("ok", BoolText(r.ok));
    TextLength("error", r.error);
    TextLength("prev_hash", r.prevHash);
    TextLength("hash", r.hash);
    hide Member, JsonString, Decimal;
  }

  lemma ShortLine(r: Record)
    requires r == NewRecord(TheWorld(), GENESIS, SHORT)
    ensures 1 < |LineBytes(r)| && |LineBytes(r)| + 1 <= TAIL_READ_BYTES
  {
    LineLength(r);
    EncodedLength(RecordLine(r));
    hide RecordLine, Encode, RecordCanonical;
  }

  const SHORT := Call("", 0, "", true, "", "")

  lemma FirstRecord() returns (r: Record)
    ensures r == NewRecord(TheWorld(), GENESIS, SHORT) && AuditStep(TheWorld(), [], SHORT) == Ok(r)
  {
    r := NewRecord(TheWorld(), GENESIS, SHORT);
    hide NewRecord;
  }

  lemma OneByteLeft(r: Record)
    requires 1 < |LineBytes(r)|
    ensures |WrittenPart(LineBytes(r), AppendFails(1))| == 1
  {
    hide LineBytes;
  }

  /** A call, an append that fails after its first byte, and another call that succeeds: from
      then on the log fails under every head and whatever is appended. */
  lemma FailedAppendHappens()
    ensures exists r, s: Record, torn ::
              && AuditStep(TheWorld(), [], SHORT) == Ok(r)
              && torn == WrittenPart(LineBytes(r), AppendFails(1)) && |torn| == 1
              && AuditStep(TheWorld(), LineBytes(r) + torn, SHORT) == Ok(s)
              && forall more, head :: !Verify(TheWorld(), LineBytes(r) + torn + LineBytes(s) + more, head).ok
  {
    hide *;
    var w := TheWorld();
    var r := FirstRecord();
    var s := NewRecord(w, r.hash, SHORT);
    ShortLine(r);
    OneByteLeft(r);
    var torn := WrittenPart(LineBytes(r), AppendFails(1));
    AfterFirstByte(r, s, torn, [], Missing);
    forall more, head ensures !Verify(w, LineBytes(r) + torn + LineBytes(s) + more, head).ok {
      AfterFirstByte(r, s, torn, more, head);
    }
  }

  lemma AfterFirstByte(r: Record, s: Record, torn: Bytes, more: Bytes, head: Head)
    requires 1 < |LineBytes(r)| && |LineBytes(r)| + 1 <= TAIL_READ_BYTES
    requires torn == WrittenPart(LineBytes(r), AppendFails(1)) && s == NewRecord(TheWorld(), r.hash, SHORT)
    ensures AuditStep(TheWorld(), LineBytes(r) + torn, SHORT) == Ok(s)
    ensures !Verify(TheWorld(), LineBytes(r) + torn + LineBytes(s) + more, head).ok
  {
    assert TAIL_READ_BYTES == 262144;
    hide *;
    TheWorldReads();
    EmptyEndsLine();
    FailedAppendBreaksLog(TheWorld(), [], r, r, 1, SHORT, more, head);
    assert [] + LineBytes(r) == LineBytes(r);
  }

  lemma EmptyEndsLine()
    ensures EndsLine([])
  {}
}
