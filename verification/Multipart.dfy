/** Splitting a multipart body at its delimiter lines (section 5.1.1 of RFC 2046). */
module Multipart {
  import opened Common

  type Bytes = seq<byte>

  const MAX_PARTS: nat := 1000

  const DASH: byte := 45
  const CRLF: Bytes := [CR, LF]

  /** A sub-slice of the body, by position. */
  datatype Slice = Slice(from: nat, to: nat)

  predicate IsBlank(b: byte) {
    b == CR || b == LF || b == 32 || b == 9
  }

  function Marker(boundary: Bytes): Bytes {
    [DASH, DASH] + boundary
  }

  function Closing(boundary: Bytes): Bytes {
    [DASH, DASH] + boundary + [DASH, DASH]
  }

  /** The position after the first LF at or after `i`, or the end of the body. */
  function LineEnd(s: Bytes, i: nat): (e: nat)
    requires i <= |s|
    ensures i <= e <= |s| && (i < |s| ==> i < e)
    decreases |s| - i
  {
    if i == |s| then i else if s[i] == LF then i + 1 else LineEnd(s, i + 1)
  }

  function TrimBlanks(line: Bytes): Bytes {
    if line != [] && IsBlank(line[|line| - 1]) then TrimBlanks(line[..|line| - 1]) else line
  }

  /** The slice from `a` to `b` without one trailing line break. */
  function Cut(body: Bytes, a: nat, b: nat): (s: Slice)
    requires a <= b <= |body|
    ensures s.from == a <= s.to <= b
  {
    if b - a >= 2 && body[b - 2] == CR && body[b - 1] == LF then Slice(a, b - 2)
    else if b - a >= 1 && body[b - 1] == LF then Slice(a, b - 1)
    else Slice(a, b)
  }

  /** What the scan yields from line start `offset` on, when the current part
      began at `open` and `room` more parts may be closed. */
  function Scan(body: Bytes, marker: Bytes, closing: Bytes, offset: nat, open: Option<nat>, room: nat): seq<Slice>
    requires offset <= |body| && (open.Some? ==> open.value <= offset)
    decreases |body| - offset
  {
    if offset == |body| then (if open.Some? then [Cut(body, open.value, |body|)] else [])
    else
      var next := LineEnd(body, offset);
      var line := TrimBlanks(body[offset..next]);
      var done := if open.Some? then [Cut(body, open.value, offset)] else [];
      if line == marker then
        if room <= |done| then done + [Cut(body, next, |body|)]
        else done + Scan(body, marker, closing, next, Some(next), room - |done|)
      else if line == closing then done
      else Scan(body, marker, closing, next, open, room)
  }

  function PartSlices(body: Bytes, boundary: Bytes): seq<Slice> {
    Scan(body, Marker(boundary), Closing(boundary), 0, None, MAX_PARTS)
  }

  /** The end of a line without its trailing blanks. */
  method TrimLine(line: Bytes) returns (trimmed: Bytes)
    ensures trimmed == TrimBlanks(line)
    ensures trimmed <= line
    ensures forall i :: |trimmed| <= i < |line| ==> line[i] in {9, 10, 13, 32}
    ensures trimmed == [] || trimmed[|trimmed| - 1] !in {9, 10, 13, 32}
  {
    var end := |line|;
    assert line[..end] == line;
    while end > 0 && IsBlank(line[end - 1])
      invariant 0 <= end <= |line|
      invariant TrimBlanks(line[..end]) == TrimBlanks(line)
      invariant forall i :: end <= i < |line| ==> line[i] in {9, 10, 13, 32}
    {
      assert line[..end][..end - 1] == line[..end - 1];
      end := end - 1;
    }
    trimmed := line[..end];
  }

  /** The splitting loop: offsets, the open part and the parts found so far. */
  method MultipartParts(body: Bytes, boundary: Bytes) returns (parts: seq<Slice>)
    ensures parts == PartSlices(body, boundary)
  {
    hide LineEnd, TrimBlanks, Cut, Marker, Closing;
    var marker, closing := Marker(boundary), Closing(boundary);
    parts := [];
    var partStart: Option<nat> := None;
    var offset := 0;
    var closed := false;
    while offset < |body|
      invariant 0 <= offset <= |body|
      invariant partStart.Some? ==> partStart.value <= offset
      invariant |parts| < MAX_PARTS && !closed
      invariant PartSlices(body, boundary) ==
                parts + Scan(body, marker, closing, offset, partStart, MAX_PARTS - |parts|)
    {
      var lineStart := offset;
      offset := LineEnd(body, lineStart);
      var trimmed := TrimLine(body[lineStart..offset]);
      if trimmed == marker {
        if partStart.Some? {
          parts := parts + [Cut(body, partStart.value, lineStart)];
        }
        partStart := Some(offset);
        if |parts| >= MAX_PARTS {
          break;
        }
      } else if trimmed == closing {
        if partStart.Some? {
          parts := parts + [Cut(body, partStart.value, lineStart)];
        }
        partStart := None;
        closed := true;
        break;
      }
    }
    if partStart.Some? && !closed {
      parts := parts + [Cut(body, partStart.value, |body|)];
    }
  }

  // ---------------------------------------------------------------- any body

  ghost predicate Ordered(slices: seq<Slice>, from: nat, to: nat) {
    && (forall i :: 0 <= i < |slices| ==> from <= slices[i].from <= slices[i].to <= to)
    && (forall i, j :: 0 <= i < j < |slices| ==> slices[i].to <= slices[j].from)
  }

  lemma {:induction false} ScanOrdered(
      body: Bytes, marker: Bytes, closing: Bytes, offset: nat, open: Option<nat>, room: nat)
    requires offset <= |body| && (open.Some? ==> open.value <= offset)
    requires room >= 1
    ensures Ordered(Scan(body, marker, closing, offset, open, room),
                    if open.Some? then open.value else offset, |body|)
    ensures |Scan(body, marker, closing, offset, open, room)| <= room + 1
    decreases |body| - offset
  {
    hide LineEnd, TrimBlanks, Cut;
    if offset < |body| {
      var next := LineEnd(body, offset);
      var line := TrimBlanks(body[offset..next]);
      var done := if open.Some? then 1 else 0;
      if line == marker {
        if room > done {
          ScanOrdered(body, marker, closing, next, Some(next), room - done);
        }
      } else if line != closing {
        ScanOrdered(body, marker, closing, next, open, room);
      }
    }
  }

  /** For any body and boundary: ordered, non-overlapping slices, at most one over the limit. */
  lemma PartsAreOrdered(body: Bytes, boundary: Bytes)
    ensures Ordered(PartSlices(body, boundary), 0, |body|)
    ensures |PartSlices(body, boundary)| <= 1001
  {
    ScanOrdered(body, Marker(boundary), Closing(boundary), 0, None, MAX_PARTS);
  }

  // ---------------------------------------------------------------- joined parts

  /** The parts between delimiter lines, as a composer writes them: two hyphens and the boundary
      before each part, and two more hyphens at the end. */
  function Join(parts: seq<Bytes>, boundary: Bytes): Bytes {
    if parts == [] then [45, 45] + boundary + [45, 45] + [13, 10]
    else [45, 45] + boundary + [13, 10] + parts[0] + [13, 10] + Join(parts[1..], boundary)
  }

  lemma JoinUnfolds(parts: seq<Bytes>, boundary: Bytes)
    ensures Join(parts, boundary) ==
            if parts == [] then Closing(boundary) + CRLF
            else Marker(boundary) + CRLF + parts[0] + CRLF + Join(parts[1..], boundary)
  {}

  function Content(body: Bytes, s: Slice): Bytes {
    if s.from <= s.to <= |body| then body[s.from..s.to] else []
  }

  /** The contents of the slices. */
  function Contents(body: Bytes, slices: seq<Slice>): (r: seq<Bytes>)
    ensures |r| == |slices|
  {
    seq(|slices|, i requires 0 <= i < |slices| => Content(body, slices[i]))
  }

  /** No line of the part reads as a delimiter line. */
  predicate Clean(part: Bytes, marker: Bytes, closing: Bytes) {
    part != [] ==>
      var e := LineEnd(part, 0);
      TrimBlanks(part[..e]) != marker && TrimBlanks(part[..e]) != closing && Clean(part[e..], marker, closing)
  }

  predicate AllClean(parts: seq<Bytes>, boundary: Bytes) {
    parts != [] ==> Clean(parts[0], Marker(boundary), Closing(boundary)) && AllClean(parts[1..], boundary)
  }

  /** A boundary that survives trimming: no LF, and no blank at its end. */
  predicate ValidBoundary(boundary: Bytes) {
    LF !in boundary && (boundary != [] ==> !IsBlank(boundary[|boundary| - 1]))
  }

  lemma {:induction false} LineEndAt(s: Bytes, i: nat, line: Bytes)
    requires i + |line| <= |s| && line != [] && s[i..i + |line|] == line
    requires line[|line| - 1] == LF && LF !in line[..|line| - 1]
    ensures LineEnd(s, i) == i + |line|
    decreases |line|
  {
    assert s[i] == line[0];
    if |line| > 1 {
      assert line[0] == line[..|line| - 1][0];
      assert s[i + 1..i + |line|] == line[1..];
      assert line[1..][..|line| - 2] == line[..|line| - 1][1..];
      LineEndAt(s, i + 1, line[1..]);
    }
  }

  lemma TrimDelimiter(d: Bytes)
    requires d != [] && !IsBlank(d[|d| - 1])
    ensures TrimBlanks(d + CRLF) == d
  {
    TrimCrlf(d);
  }

  lemma TrimCrlf(d: Bytes)
    ensures TrimBlanks(d + CRLF) == TrimBlanks(d)
  {
    assert (d + CRLF)[..|d| + 1] == d + [CR];
    assert (d + [CR])[..|d|] == d;
    assert TrimBlanks(d + [CR]) == TrimBlanks(d);
  }

  /** The first line of a sequence: either it ends in LF, or there is no LF at all. */
  lemma {:induction false} FirstLine(s: Bytes, i: nat)
    requires i <= |s|
    ensures var e := LineEnd(s, i);
            (e > i && s[e - 1] == LF && LF !in s[i..e - 1]) || (e == |s| && LF !in s[i..])
    decreases |s| - i
  {
    if i < |s| && s[i] != LF {
      FirstLine(s, i + 1);
      var e := LineEnd(s, i + 1);
      assert s[i..] == [s[i]] + s[i + 1..];
      if e - 1 >= i + 1 { assert s[i..e - 1] == [s[i]] + s[i + 1..e - 1]; }
    }
  }

  /** Scanning over the lines of a clean part changes nothing but the offset. */
  lemma {:induction false} SkipPart(
      body: Bytes, marker: Bytes, closing: Bytes, offset: nat, open: nat, room: nat, rest: Bytes, end: nat)
    requires open <= offset <= end && end + 2 <= |body|
    requires rest == body[offset..end] && body[end..end + 2] == CRLF
    requires Clean(rest, marker, closing) && |marker| > 0 && |closing| > 0
    ensures Scan(body, marker, closing, offset, Some(open), room)
         == Scan(body, marker, closing, end + 2, Some(open), room)
    decreases |rest|
  {
    hide Scan;
    FirstLine(rest, 0);
    var e := LineEnd(rest, 0);
    if e > 0 && rest[e - 1] == LF {
      SkipLine(body, marker, closing, offset, open, room, rest[..e]);
      SkipPart(body, marker, closing, offset + e, open, room, rest[e..], end);
    } else {
      assert rest[..|rest|] == rest;
      TrimCrlf(rest);
      assert body[offset..end + 2] == rest + CRLF;
      assert (rest + CRLF)[..|rest| + 1] == rest + [CR];
      SkipLine(body, marker, closing, offset, open, room, rest + CRLF);
    }
  }

  lemma SkipLine(
      body: Bytes, marker: Bytes, closing: Bytes, offset: nat, open: nat, room: nat, line: Bytes)
    requires open <= offset && offset + |line| <= |body| && body[offset..offset + |line|] == line
    requires line != [] && line[|line| - 1] == LF && LF !in line[..|line| - 1]
    requires TrimBlanks(line) != marker && TrimBlanks(line) != closing
    ensures Scan(body, marker, closing, offset, Some(open), room)
         == Scan(body, marker, closing, offset + |line|, Some(open), room)
  {
    LineEndAt(body, offset, line);
  }

  /** Scanning a delimiter line of a joined body. */
  lemma DelimiterLine(body: Bytes, offset: nat, d: Bytes)
    requires offset + |d| + 2 <= |body| && body[offset..offset + |d| + 2] == d + CRLF
    requires d != [] && LF !in d && !IsBlank(d[|d| - 1])
    ensures LineEnd(body, offset) == offset + |d| + 2
    ensures TrimBlanks(body[offset..offset + |d| + 2]) == d
  {
    var line := d + CRLF;
    assert line[..|line| - 1] == d + [CR];
    LineEndAt(body, offset, line);
    TrimDelimiter(d);
  }

  lemma ScanMarker(body: Bytes, boundary: Bytes, offset: nat, open: Option<nat>, room: nat)
    requires ValidBoundary(boundary) && room >= 1 && (open.Some? ==> open.value <= offset)
    requires offset + |Marker(boundary)| + 2 <= |body|
    requires body[offset..offset + |Marker(boundary)| + 2] == Marker(boundary) + CRLF
    ensures var next := offset + |Marker(boundary)| + 2;
            var done := if open.Some? then [Cut(body, open.value, offset)] else [];
            Scan(body, Marker(boundary), Closing(boundary), offset, open, room) == done +
            if room <= |done| then [Cut(body, next, |body|)]
            else Scan(body, Marker(boundary), Closing(boundary), next, Some(next), room - |done|)
  {
    DelimiterLine(body, offset, Marker(boundary));
    hide LineEnd, TrimBlanks, Cut, Marker, Closing;
  }

  lemma ScanClosing(body: Bytes, boundary: Bytes, offset: nat, open: Option<nat>, room: nat)
    requires ValidBoundary(boundary) && offset <= |body| && (open.Some? ==> open.value <= offset)
    requires body[offset..] == Closing(boundary) + CRLF
    ensures Scan(body, Marker(boundary), Closing(boundary), offset, open, room)
         == if open.Some? then [Cut(body, open.value, offset)] else []
  {
    var closing := Closing(boundary);
    assert body[offset..offset + |closing| + 2] == body[offset..];
    DelimiterLine(body, offset, closing);
  }

  /** Prepending the open part to the parts found after it. */
  lemma ConsContents(body: Bytes, first: Slice, rest: seq<Slice>, parts: seq<Bytes>)
    ensures Contents(body, [first] + rest) == [Content(body, first)] + parts <==> Contents(body, rest) == parts
  {
    var c := Content(body, first);
    assert Contents(body, [first] + rest) == [c] + Contents(body, rest);
    assert ([c] + parts)[1..] == parts && ([c] + Contents(body, rest))[1..] == Contents(body, rest);
  }

  /** Scanning joined parts from a line start, with an open part behind it. */
  lemma {:induction false} ScanJoined(
      body: Bytes, boundary: Bytes, offset: nat, open: nat, room: nat, part: Bytes, parts: seq<Bytes>)
    requires ValidBoundary(boundary) && room >= 1 && AllClean(parts, boundary)
    requires open <= offset <= |body| && body[open..offset] == part + CRLF
    requires body[offset..] == Join(parts, boundary)
    ensures Contents(body, Scan(body, Marker(boundary), Closing(boundary), offset, Some(open), room)) == [part] + parts
            <==> |parts| + 1 <= room
    decreases |parts|, 1
  {
    hide Scan, AllClean, Cut, Content, Contents, Marker, Closing, ValidBoundary;
    var first := Cut(body, open, offset);
    JoinUnfolds(parts, boundary);
    CutPart(body, open, offset, part);
    if parts == [] {
      ScanClosing(body, boundary, offset, Some(open), room);
      ConsContents(body, first, [], []);
      assert [first] == [first] + [];
      assert Contents(body, []) == [];
    } else {
      JoinedHead(body, boundary, offset, parts);
      var next := offset + |Marker(boundary)| + 2;
      ScanMarker(body, boundary, offset, Some(open), room);
      if room == 1 {
        OverflowPart(body, boundary, next, parts);
        ConsContents(body, first, [Cut(body, next, |body|)], parts);
      } else {
        PartThenRest(body, boundary, next, room - 1, parts);
        ConsContents(body, first, Scan(body, Marker(boundary), Closing(boundary), next, Some(next), room - 1), parts);
      }
    }
  }

  /** Scanning from the start of the first of the joined parts. */
  lemma {:induction false} PartThenRest(body: Bytes, boundary: Bytes, next: nat, room: nat, parts: seq<Bytes>)
    requires ValidBoundary(boundary) && room >= 1 && parts != [] && AllClean(parts, boundary)
    requires PartAt(body, boundary, next, parts)
    ensures Contents(body, Scan(body, Marker(boundary), Closing(boundary), next, Some(next), room)) == parts
            <==> |parts| <= room
    decreases |parts|, 0
  {
    assert |Marker(boundary)| > 0 && |Closing(boundary)| > 0;
    hide Scan, AllClean, Cut, Contents, Marker, Closing, Join, ValidBoundary, Clean;
    var end := next + |parts[0]|;
    SkipPart(body, Marker(boundary), Closing(boundary), next, next, room, parts[0], end);
    ScanJoined(body, boundary, end + 2, next, room, parts[0], parts[1..]);
    assert [parts[0]] + parts[1..] == parts;
  }

  /** The first part, its line break and the joined rest lie from `next` on. */
  predicate PartAt(body: Bytes, boundary: Bytes, next: nat, parts: seq<Bytes>)
    requires parts != []
  {
    var end := next + |parts[0]|;
    && end + 2 <= |body|
    && body[next..end] == parts[0] && body[end..end + 2] == CRLF && body[next..end + 2] == parts[0] + CRLF
    && body[end + 2..] == Join(parts[1..], boundary)
  }

  /** A slice loses one line break at its end, CR LF or LF, and nothing else. */
  lemma CutsOneBreak(body: Bytes, a: nat, b: nat)
    requires a <= b <= |body|
    ensures var raw, cut := body[a..b], Content(body, Cut(body, a, b));
            raw == cut + [13, 10] || (raw == cut + [10] && (cut == [] || cut[|cut| - 1] != 13))
            || (raw == cut && (raw == [] || raw[|raw| - 1] != 10))
  {
    var s := Cut(body, a, b);
    assert body[a..b] == body[a..s.to] + body[s.to..b];
  }

  /** A part followed by a line break is cut back to the part. */
  lemma CutPart(body: Bytes, a: nat, b: nat, part: Bytes)
    requires a <= b <= |body| && body[a..b] == part + CRLF
    ensures Content(body, Cut(body, a, b)) == part
  {
    assert body[b - 2] == body[a..b][b - 2 - a] && body[b - 1] == body[a..b][b - 1 - a];
    assert body[a..b][..b - 2 - a] == part;
    assert body[a..b - 2] == body[a..b][..b - 2 - a];
  }

  /** Where the pieces of a joined body lie. */
  lemma JoinedHead(body: Bytes, boundary: Bytes, offset: nat, parts: seq<Bytes>)
    requires offset <= |body| && parts != [] && body[offset..] == Join(parts, boundary)
    ensures var next := offset + |Marker(boundary)| + 2;
            && PartAt(body, boundary, next, parts)
            && body[offset..next] == Marker(boundary) + CRLF
  {
    JoinUnfolds(parts, boundary);
    hide Marker, Closing, Join;
    var head, p, tail := Marker(boundary) + CRLF, parts[0], Join(parts[1..], boundary);
    var all := head + p + CRLF + tail;
    var n, e := |head|, |head| + |p|;
    SliceOfTail(body, offset, all, 0, n);
    SliceOfTail(body, offset, all, n, e);
    SliceOfTail(body, offset, all, e, e + 2);
    SliceOfTail(body, offset, all, n, e + 2);
    SliceOfTail(body, offset, all, e + 2, |all|);
    FourPieces(head, p, CRLF, tail);
  }

  lemma SliceOfTail(body: Bytes, offset: nat, all: Bytes, i: nat, j: nat)
    requires offset <= |body| && body[offset..] == all && i <= j <= |all|
    ensures body[offset + i..offset + j] == all[i..j]
  {
    forall k | 0 <= k < j - i ensures body[offset + i..offset + j][k] == all[i..j][k] {
      assert body[offset + i + k] == body[offset..][i + k];
    }
  }

  lemma FourPieces(a: Bytes, b: Bytes, c: Bytes, d: Bytes)
    ensures var all := a + b + c + d;
            && all[..|a|] == a && all[|a|..|a| + |b|] == b
            && all[|a| + |b|..|a| + |b| + |c|] == c
            && all[|a|..|a| + |b| + |c|] == b + c
            && all[|a| + |b| + |c|..] == d
  {}

  /** Past the limit the last slice swallows the rest of the body, so it is no part. */
  lemma OverflowPart(body: Bytes, boundary: Bytes, next: nat, parts: seq<Bytes>)
    requires parts != [] && PartAt(body, boundary, next, parts)
    ensures Contents(body, [Cut(body, next, |body|)]) != parts
  {
    assert |Join(parts[1..], boundary)| >= 3;
    var s := Cut(body, next, |body|);
    assert |body[s.from..s.to]| > |parts[0]|;
    assert Contents(body, [s])[0] != parts[0];
  }

  /** Splitting what was joined: the exact parts come back if and only if there
      are at most `MAX_PARTS` of them. */
  lemma SplitUndoesJoin(parts: seq<Bytes>, boundary: Bytes)
    requires ValidBoundary(boundary) && AllClean(parts, boundary)
    ensures var body := Join(parts, boundary);
            Contents(body, PartSlices(body, boundary)) == parts <==> |parts| <= 1000
  {
    hide Scan, AllClean, Cut, Marker, Closing, PartAt;
    var body := Join(parts, boundary);
    JoinUnfolds(parts, boundary);
    hide Join;
    assert body[0..] == body;
    if parts == [] {
      ScanClosing(body, boundary, 0, None, MAX_PARTS);
    } else {
      JoinedHead(body, boundary, 0, parts);
      ScanMarker(body, boundary, 0, None, MAX_PARTS);
      PartThenRest(body, boundary, |Marker(boundary)| + 2, MAX_PARTS, parts);
    }
  }
}
