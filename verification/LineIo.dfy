/** Lines and literals read from a stream that arrives in arbitrary chunks. */
module LineIo {
  import opened Common

  type Bytes = seq<byte>

  const READ_CHUNK: nat := 4096

  // ---------------------------------------------------------------- on the whole stream

  /** The position of the first LF, if there is one. */
  function FindLf(s: Bytes): (p: Option<nat>)
    ensures p.Some? ==> p.value < |s| && s[p.value] == LF && LF !in s[..p.value]
    ensures p.None? ==> LF !in s
  {
    if s == [] then None
    else if s[0] == LF then Some(0)
    else
      assert s == [s[0]] + s[1..];
      match FindLf(s[1..])
      case None => None
      case Some(p) => assert s[..p + 1] == [s[0]] + s[1..][..p]; Some(p + 1)
  }

  /** A line, the end of the stream, or a refusal. */
  datatype Line = Got(line: Bytes) | End | TooLong

  /** What reading a line from the whole stream gives, and what is left. A refusal discards
      data, so nothing is said about the rest after one. */
  datatype Expected = Exactly(result: Line, rest: Bytes) | Refusal | EitherWay(line: Bytes, rest: Bytes)

  /** The outcome of reading a line of at most `max` bytes, when all of the stream is known.
      One length is decided by how the bytes arrive: `max` bytes, CR and LF. */
  function ExpectedLine(s: Bytes, max: nat): Expected {
    match FindLf(s)
    case Some(p) =>
      if p <= max then Exactly(Got(StripCr(s[..p])), s[p + 1..])
      else if p == max + 1 && s[max] == CR then EitherWay(s[..max], s[p + 1..])
      else Refusal
    case None =>
      if |s| > max then Refusal
      else if s == [] then Exactly(End, [])
      else Exactly(Got(StripCr(s)), [])
  }

  /** `read_exact` on the whole stream. */
  function ExpectedBytes(s: Bytes, count: nat, max: nat): Option<(Bytes, Bytes)> {
    if count > max || |s| < count then None else Some((s[..count], s[count..]))
  }

  lemma {:induction false} FindLfUnique(s: Bytes, p: nat)
    requires p < |s| && s[p] == LF && LF !in s[..p]
    ensures FindLf(s) == Some(p)
  {
    if p > 0 {
      assert s[0] == s[..p][0];
      assert s[1..][..p - 1] == s[..p][1..];
      FindLfUnique(s[1..], p - 1);
    }
  }

  /** More data after a found LF changes nothing about the line. */
  lemma FindLfExtends(s: Bytes, more: Bytes)
    requires FindLf(s).Some?
    ensures FindLf(s + more) == FindLf(s)
  {
    var p := FindLf(s).value;
    assert (s + more)[..p] == s[..p];
    FindLfUnique(s + more, p);
  }

  /** The unread chunks put together. */
  function Flatten(chunks: seq<Bytes>): Bytes {
    if chunks == [] then [] else chunks[0] + Flatten(chunks[1..])
  }

  predicate GoodChunks(chunks: seq<Bytes>) {
    forall i :: 0 <= i < |chunks| ==> 1 <= |chunks[i]| <= READ_CHUNK
  }

  // ---------------------------------------------------------------- chunk by chunk

  /** Reading a line as the bytes arrive: the result, and the buffer and chunks left. */
  function ReadFrom(buffer: Bytes, chunks: seq<Bytes>, max: nat): (Line, Bytes, seq<Bytes>)
    decreases |chunks|
  {
    match FindLf(buffer)
    case Some(p) =>
      if |StripCr(buffer[..p])| > max then (TooLong, [], chunks)
      else (Got(StripCr(buffer[..p])), buffer[p + 1..], chunks)
    case None =>
      if |buffer| > max then (TooLong, [], chunks)
      else if chunks == [] then (if buffer == [] then End else Got(StripCr(buffer)), [], [])
      else ReadFrom(buffer + chunks[0], chunks[1..], max)
  }

  /** The result is one the whole stream allows. */
  predicate Allowed(s: Bytes, max: nat, r: Line, rest: Bytes) {
    match ExpectedLine(s, max)
    case Exactly(result, left) => r == result && rest == left
    case Refusal => r == TooLong
    case EitherWay(line, left) => r == TooLong || (r == Got(line) && rest == left)
  }

  /** What the whole stream allows, in terms of its first LF. */
  lemma AllowedAtLf(s: Bytes, max: nat, p: nat)
    requires FindLf(s) == Some(p)
    ensures p <= max ==> Allowed(s, max, Got(StripCr(s[..p])), s[p + 1..]) && |StripCr(s[..p])| <= max
    ensures p > max && |StripCr(s[..p])| <= max ==> Allowed(s, max, Got(StripCr(s[..p])), s[p + 1..])
    ensures |StripCr(s[..p])| > max ==> forall rest :: Allowed(s, max, TooLong, rest)
  {
    hide FindLf;
    if p > max && |StripCr(s[..p])| <= max {
      assert p == max + 1 && s[max] == CR;
      assert s[..p][..max] == s[..max];
    }
  }

  /** A returned line holds no LF, and with its terminator (LF or CR LF, or at the end of the
      stream nothing or CR) and the rest it makes up the stream. */
  lemma LineConserves(s: Bytes, max: nat, line: Bytes, rest: Bytes)
    requires Allowed(s, max, Got(line), rest)
    ensures LF !in line && |line| <= max
    ensures s == line + [10] + rest ==> line == [] || line[|line| - 1] != 13
    ensures s == line + [LF] + rest || s == line + [CR, LF] + rest
            || (LF !in s && rest == [] && (s == line || s == line + [CR]))
  {
    match FindLf(s)
    case Some(p) =>
      assert p > max ==> p == max + 1 && s[max] == CR && line == s[..max];
      assert p > max ==> s[..p] == line + [CR] && LF !in line by {
        if p > max { assert forall i :: 0 <= i < max ==> line[i] == s[..p][i]; }
      }
      assert p <= max ==> (line == s[..p] || line + [CR] == s[..p]);
      assert line == s[..p] || line + [CR] == s[..p];
      assert s == s[..p] + [LF] + rest;
      hide FindLf, ExpectedLine;
      if line + [CR] == s[..p] {
        assert forall i :: 0 <= i < |line| ==> line[i] == s[..p][i];
        assert line + [CR] + [LF] == line + [CR, LF];
      }
    case None =>
  }

  lemma FoundAllowed(buffer: Bytes, unread: Bytes, max: nat)
    requires FindLf(buffer).Some?
    ensures var p := FindLf(buffer).value;
            if |StripCr(buffer[..p])| > max then Allowed(buffer + unread, max, TooLong, unread)
            else Allowed(buffer + unread, max, Got(StripCr(buffer[..p])), buffer[p + 1..] + unread)
  {
    hide *;
    var p := FindLf(buffer).value;
    FindLfExtends(buffer, unread);
    LineInBuffer(buffer, unread, p);
    AllowedAtLf(buffer + unread, max, p);
  }

  /** Every chunking of the stream gives a result the whole stream allows. */
  lemma {:induction false} ReadFromAllowed(buffer: Bytes, chunks: seq<Bytes>, max: nat)
    ensures var (r, left, unread) := ReadFrom(buffer, chunks, max);
            Allowed(buffer + Flatten(chunks), max, r, left + Flatten(unread))
    decreases |chunks|
  {
    if FindLf(buffer).Some? {
      FoundAllowed(buffer, Flatten(chunks), max);
      TooLongAnyRest(buffer + Flatten(chunks), max);
    } else if |buffer| > max {
      NoLfYet(buffer, Flatten(chunks), max);
    } else if chunks == [] {
      assert buffer + [] == buffer;
    } else {
      ByteAssoc(buffer, chunks[0], Flatten(chunks[1..]));
      ReadFromAllowed(buffer + chunks[0], chunks[1..], max);
    }
    hide FindLf;
  }

  /** A line that fits is read whole, its terminator gone and the rest kept, however it arrives. */
  lemma FittingLineIsRead(line: Bytes, crlf: bool, rest: Bytes, chunks: seq<Bytes>, max: nat)
    requires LF !in line && (line != [] ==> line[|line| - 1] != 13)
    requires Flatten(chunks) == line + (if crlf then [13, 10] else [10]) + rest
    requires |line| + (if crlf then 1 else 0) <= max
    ensures var (r, left, unread) := ReadFrom([], chunks, max);
            r == Got(line) && left + Flatten(unread) == rest
  {
    hide *;
    var s := Flatten(chunks);
    ReadFromAllowed([], chunks, max);
    assert [] + s == s;
    FittingIsExpected(line, crlf, rest, max);
    ExactlyAllowed(s, max, ReadFrom([], chunks, max).0,
                   ReadFrom([], chunks, max).1 + Flatten(ReadFrom([], chunks, max).2));
  }

  lemma ExactlyAllowed(s: Bytes, max: nat, r: Line, rest: Bytes)
    requires Allowed(s, max, r, rest)
    ensures ExpectedLine(s, max).Exactly? ==> ExpectedLine(s, max) == Exactly(r, rest)
    ensures ExpectedLine(s, max).Refusal? ==> r == TooLong
  {
    hide ExpectedLine;
  }

  lemma FittingIsExpected(line: Bytes, crlf: bool, rest: Bytes, max: nat)
    requires LF !in line && (line != [] ==> line[|line| - 1] != 13)
    requires |line| + (if crlf then 1 else 0) <= max
    ensures ExpectedLine(line + (if crlf then [13, 10] else [10]) + rest, max) == Exactly(Got(line), rest)
  {
    var text := line + if crlf then [CR] else [];
    var s := line + (if crlf then [13, 10] else [10]) + rest;
    assert s == text + [LF] + rest;
    assert s[..|text|] == text && s[|text|] == LF && s[|text| + 1..] == rest && LF !in text;
    FindLfUnique(s, |text|);
    assert crlf ==> text[..|line|] == line;
    assert StripCr(text) == line;
    hide FindLf;
  }

  /** And a line over the limit is refused, but for the one length the chunking decides. */
  lemma LongLineIsRefused(line: Bytes, rest: Bytes, chunks: seq<Bytes>, max: nat)
    requires LF !in line && Flatten(chunks) == line + [10] + rest
    requires |line| > max + 1 || (|line| == max + 1 && line[max] != 13)
    ensures ReadFrom([], chunks, max).0 == TooLong
  {
    hide *;
    var s := Flatten(chunks);
    ReadFromAllowed([], chunks, max);
    assert [] + s == s;
    LongIsExpected(line, rest, max);
    ExactlyAllowed(s, max, ReadFrom([], chunks, max).0,
                   ReadFrom([], chunks, max).1 + Flatten(ReadFrom([], chunks, max).2));
  }

  lemma LongIsExpected(line: Bytes, rest: Bytes, max: nat)
    requires LF !in line
    requires |line| > max + 1 || (|line| == max + 1 && line[max] != 13)
    ensures ExpectedLine(line + [10] + rest, max) == Refusal
  {
    var s := line + [10] + rest;
    assert s[..|line|] == line && s[|line|] == LF && s[max] == line[max];
    FindLfUnique(s, |line|);
    hide FindLf;
  }

  /** Nothing is promised about what is left after a refusal. */
  lemma TooLongAnyRest(s: Bytes, max: nat)
    ensures forall x, y :: Allowed(s, max, TooLong, x) ==> Allowed(s, max, TooLong, y)
  {
    hide ExpectedLine;
    ExactlyIsNoRefusal(s, max);
  }

  lemma ExactlyIsNoRefusal(s: Bytes, max: nat)
    ensures ExpectedLine(s, max).Exactly? ==> ExpectedLine(s, max).result != TooLong
  {}

  /** One byte at a time. */
  function Singles(s: Bytes): (chunks: seq<Bytes>)
    ensures |chunks| == |s| && GoodChunks(chunks)
  {
    seq(|s|, i requires 0 <= i < |s| => [s[i]])
  }

  lemma {:induction false} FlattenSingles(s: Bytes, more: seq<Bytes>)
    ensures Flatten(Singles(s) + more) == s + Flatten(more)
  {
    if s == [] {
      assert Singles(s) + more == more;
    } else {
      assert (Singles(s) + more)[1..] == Singles(s[1..]) + more;
      FlattenSingles(s[1..], more);
      assert s == [s[0]] + s[1..];
    }
  }

  lemma {:induction false} SinglesArrive(buffer: Bytes, s: Bytes, more: seq<Bytes>, max: nat)
    requires LF !in buffer && LF !in s && |buffer| + |s| <= max + 1
    ensures ReadFrom(buffer, Singles(s) + more, max) == ReadFrom(buffer + s, more, max)
    decreases |s|
  {
    if s == [] {
      assert buffer + s == buffer && Singles(s) + more == more;
    } else {
      NoLf(buffer);
      assert (Singles(s) + more)[1..] == Singles(s[1..]) + more;
      assert buffer + [s[0]] + s[1..] == buffer + s;
      SinglesArrive(buffer + [s[0]], s[1..], more, max);
    }
  }

  lemma NoLf(s: Bytes)
    requires LF !in s
    ensures FindLf(s) == None
  {}

  /** The result depends on the chunking exactly for a line of `max` bytes ended by CR LF:
      byte by byte it is refused, with CR and LF in one read it is accepted. */
  lemma ChunkingDecides(s: Bytes, max: nat)
    requires ExpectedLine(s, max).EitherWay?
    ensures exists a, b :: GoodChunks(a) && GoodChunks(b) && Flatten(a) == s && Flatten(b) == s
              && ReadFrom([], a, max).0 == TooLong && ReadFrom([], b, max).0 == Got(s[..max])
  {
    var head, tail := s[..max], s[max + 2..];
    assert s[..max + 1] == head + [CR];
    assert s == head + [CR, LF] + tail;
    assert LF !in head;
    RefusedBySingles(s, max);
    AcceptedTogether(s, max);
  }

  lemma RefusedBySingles(s: Bytes, max: nat)
    requires max + 1 < |s| && LF !in s[..max + 1]
    ensures Flatten(Singles(s)) == s && ReadFrom([], Singles(s), max).0 == TooLong
  {
    var front, back := s[..max + 1], s[max + 1..];
    assert Singles(s) == Singles(front) + Singles(back);
    FlattenSingles(s, []);
    assert Singles(s) + [] == Singles(s) && s + Flatten([]) == s;
    SinglesArrive([], front, Singles(back), max);
    assert [] + front == front;
    NoLf(front);
  }

  lemma AcceptedTogether(s: Bytes, max: nat)
    requires max + 1 < |s| && LF !in s[..max] && s[max] == CR && s[max + 1] == LF
    ensures var b := Singles(s[..max]) + ([[CR, LF]] + Singles(s[max + 2..]));
            GoodChunks(b) && Flatten(b) == s && ReadFrom([], b, max).0 == Got(s[..max])
  {
    var head, tail := s[..max], s[max + 2..];
    var more := [[CR, LF]] + Singles(tail);
    TogetherFlattens(s, max);
    ReadsWithCrLf(head, Singles(tail), max);
    hide ReadFrom, FindLf, Flatten;
    SinglesArrive([], head, more, max);
    assert [] + head == head;
  }

  lemma TogetherFlattens(s: Bytes, max: nat)
    requires max + 1 < |s| && s[max] == CR && s[max + 1] == LF
    ensures Flatten(Singles(s[..max]) + ([[CR, LF]] + Singles(s[max + 2..]))) == s
  {
    var head, tail := s[..max], s[max + 2..];
    var more := [[CR, LF]] + Singles(tail);
    FlattenSingles(head, more);
    FlattenSingles(tail, []);
    assert Singles(tail) + [] == Singles(tail) && tail + Flatten([]) == tail;
    assert more[1..] == Singles(tail);
    hide Flatten;
    assert s == head + ([CR, LF] + tail);
  }

  lemma ReadsWithCrLf(head: Bytes, more: seq<Bytes>, max: nat)
    requires LF !in head && |head| == max
    ensures ReadFrom(head, [[CR, LF]] + more, max).0 == Got(head)
  {
    NoLf(head);
    var full := head + [CR, LF];
    assert full[..max + 1] == head + [CR];
    FindLfUnique(full, max + 1);
    hide FindLf;
    assert (head + [CR])[..max] == head;
    assert ([[CR, LF]] + more)[1..] == more;
    assert full != [];
  }

  // ---------------------------------------------------------------- the reader

  /** The buffered reader; `chunks` is what the peer will still send, read by read. */
  class Reader {
    var buffer: Bytes
    var chunks: seq<Bytes>

    predicate Valid()
      reads this
    {
      GoodChunks(chunks)
    }

    /** Everything not yet handed out. */
    function Stream(): Bytes
      reads this
    {
      buffer + Flatten(chunks)
    }

    constructor (chunks: seq<Bytes>)
      requires GoodChunks(chunks)
      ensures Valid() && buffer == [] && this.chunks == chunks && Stream() == Flatten(chunks)
    {
      buffer := [];
      this.chunks := chunks;
    }

    /** One read from the socket into the buffer; false at the end of the stream. */
    method Pump() returns (more: bool)
      requires Valid()
      modifies this
      ensures Valid() && Stream() == old(Stream())
      ensures more <==> old(chunks) != []
      ensures more ==> chunks == old(chunks)[1..] && buffer == old(buffer) + old(chunks)[0]
      ensures !more ==> buffer == old(buffer) && chunks == old(chunks)
    {
      if chunks == [] {
        return false;
      }
      ByteAssoc(buffer, chunks[0], Flatten(chunks[1..]));
      buffer := buffer + chunks[0];
      chunks := chunks[1..];
      more := true;
    }

    /** Reads one line; a refusal clears the buffer. */
    method ReadLine(max: nat) returns (r: Line)
      requires Valid()
      modifies this
      ensures Valid() && |chunks| <= |old(chunks)|
      ensures (r, buffer, chunks) == ReadFrom(old(buffer), old(chunks), max)
      ensures Allowed(old(Stream()), max, r, Stream())
      ensures |old(buffer)| <= max + READ_CHUNK ==> |buffer| <= max + READ_CHUNK
    {
      ReadFromAllowed(buffer, chunks, max);
      hide Allowed, Flatten;
      while true
        invariant Valid() && |chunks| <= |old(chunks)|
        invariant ReadFrom(buffer, chunks, max) == ReadFrom(old(buffer), old(chunks), max)
        invariant |old(buffer)| <= max + READ_CHUNK ==> |buffer| <= max + READ_CHUNK
        decreases |chunks|
      {
        var position := FindLf(buffer);
        if position.Some? {
          var p := position.value;
          var contentLen := p - (if p > 0 && buffer[p - 1] == CR then 1 else 0);
          if contentLen > max {
            buffer := [];
            return TooLong;
          }
          var line := buffer[..p];
          buffer := buffer[p + 1..];
          if line != [] && line[|line| - 1] == CR {
            line := line[..|line| - 1];
          }
          return Got(line);
        }
        if |buffer| > max {
          buffer := [];
          return TooLong;
        }
        var more := Pump();
        if !more {
          if buffer == [] {
            return End;
          }
          var line := buffer;
          buffer := [];
          if line[|line| - 1] == CR {
            line := line[..|line| - 1];
          }
          return Got(line);
        }
        assert |buffer| <= max + READ_CHUNK;   // so the third length check never fires
      }
    }

    /** Reads exactly `count` bytes; none when the limit is exceeded or the stream ends. */
    method ReadExact(count: nat, max: nat) returns (r: Option<Bytes>)
      requires Valid()
      modifies this
      ensures Valid() && |chunks| <= |old(chunks)|
      ensures match ExpectedBytes(old(Stream()), count, max)
              case None => r == None
              case Some((bytes, rest)) => r == Some(bytes) && Stream() == rest
      ensures r.Some? <==> count <= max && count <= |old(Stream())|
      ensures r.Some? ==> |r.value| == count && old(Stream()) == r.value + Stream()
      ensures count > max ==> buffer == old(buffer) && chunks == old(chunks)
      ensures |buffer| <= READ_CHUNK || |buffer| <= |old(buffer)|
    {
      if count > max {
        return None;
      }
      ghost var stream := Stream();
      var out: Bytes := [];
      while |out| < count
        invariant Valid() && |chunks| <= |old(chunks)|
        invariant |out| <= count && out + Stream() == stream
        invariant |buffer| <= READ_CHUNK || |buffer| <= |old(buffer)|
        decreases |chunks|, |buffer|
      {
        if buffer != [] {
          var take := Min(count - |out|, |buffer|);
          TakeFromBuffer(out, buffer, Flatten(chunks), take);
          out := out + buffer[..take];
          buffer := buffer[take..];
          continue;
        }
        var more := Pump();
        if !more {
          assert out + Stream() == out;
          return None;
        }
      }
      assert stream[..count] == out && stream[count..] == Stream();
      r := Some(out);
    }
  }

  lemma ByteAssoc(a: Bytes, b: Bytes, c: Bytes)
    ensures a + b + c == a + (b + c)
  {}

  lemma TakeFromBuffer(out: Bytes, buffer: Bytes, unread: Bytes, take: nat)
    requires take <= |buffer|
    ensures (out + buffer[..take]) + (buffer[take..] + unread) == out + (buffer + unread)
  {
    assert buffer == buffer[..take] + buffer[take..];
  }

  lemma LineInBuffer(buffer: Bytes, unread: Bytes, p: nat)
    requires p < |buffer|
    ensures (buffer + unread)[..p] == buffer[..p] && (buffer + unread)[p + 1..] == buffer[p + 1..] + unread
    ensures p > 0 ==> (buffer + unread)[p - 1] == buffer[p - 1]
  {}

  /** A buffer over the limit without an LF: no arrival makes the line acceptable in full view. */
  lemma NoLfYet(buffer: Bytes, unread: Bytes, max: nat)
    requires LF !in buffer && |buffer| > max
    ensures !ExpectedLine(buffer + unread, max).Exactly?
  {
    var s := buffer + unread;
    forall i | 0 <= i < |buffer| ensures s[i] != LF { assert s[i] == buffer[i]; }
  }

  // ---------------------------------------------------------------- sequences of requests

  datatype Request = LineOf(max: nat) | BytesOf(count: nat, max: nat)

  datatype Answer = LineAnswer(line: Line) | BytesAnswer(bytes: Bytes)

  /** What a sequence of requests gives on the whole stream, and what is left; none when a
      request is refused, cut short, or decided by the chunking. */
  function ExpectedRun(s: Bytes, requests: seq<Request>): Option<(seq<Answer>, Bytes)>
    decreases |requests|
  {
    if requests == [] then Some(([], s))
    else
      match requests[0]
      case LineOf(max) =>
        (match ExpectedLine(s, max)
         case Exactly(line, rest) => Cons(LineAnswer(line), ExpectedRun(rest, requests[1..]))
         case _ => None)
      case BytesOf(count, max) =>
        match ExpectedBytes(s, count, max)
        case Some((bytes, rest)) => Cons(BytesAnswer(bytes), ExpectedRun(rest, requests[1..]))
        case None => None
  }

  function Cons(a: Answer, more: Option<(seq<Answer>, Bytes)>): Option<(seq<Answer>, Bytes)> {
    if more.None? then None else Some(([a] + more.value.0, more.value.1))
  }

  /** After `answers`, the expected run goes on as the run of `requests` on `s`. */
  predicate OnTrack(expected: Option<(seq<Answer>, Bytes)>, answers: seq<Answer>, s: Bytes, requests: seq<Request>) {
    expected.Some? ==>
      var ahead := ExpectedRun(s, requests);
      ahead.Some? && expected.value == (answers + ahead.value.0, ahead.value.1)
  }

  lemma LineStep(expected: Option<(seq<Answer>, Bytes)>, answers: seq<Answer>, s: Bytes, requests: seq<Request>,
                 r: Line, rest: Bytes)
    requires OnTrack(expected, answers, s, requests)
    requires requests != [] && requests[0].LineOf? && Allowed(s, requests[0].max, r, rest)
    ensures OnTrack(expected, answers + [LineAnswer(r)], rest, requests[1..])
  {
    hide ExpectedLine;
    if expected.Some? {
      var ahead := ExpectedRun(rest, requests[1..]).value.0;
      assert answers + ([LineAnswer(r)] + ahead) == (answers + [LineAnswer(r)]) + ahead;
    }
  }

  lemma BytesStep(expected: Option<(seq<Answer>, Bytes)>, answers: seq<Answer>, s: Bytes, requests: seq<Request>,
                  bytes: Bytes, rest: Bytes)
    requires OnTrack(expected, answers, s, requests)
    requires requests != [] && requests[0].BytesOf?
    requires var e := ExpectedBytes(s, requests[0].count, requests[0].max); e.Some? ==> e.value == (bytes, rest)
    ensures OnTrack(expected, answers + [BytesAnswer(bytes)], rest, requests[1..])
  {
    hide ExpectedBytes;
    if expected.Some? {
      var ahead := ExpectedRun(rest, requests[1..]).value.0;
      assert answers + ([BytesAnswer(bytes)] + ahead) == (answers + [BytesAnswer(bytes)]) + ahead;
    }
  }

  lemma RunEnds(expected: Option<(seq<Answer>, Bytes)>, answers: seq<Answer>, s: Bytes)
    requires OnTrack(expected, answers, s, [])
    ensures expected.Some? ==> expected == Some((answers, s))
  {
    assert answers + [] == answers;
  }

  lemma RunStarts(s: Bytes, requests: seq<Request>)
    ensures OnTrack(ExpectedRun(s, requests), [], s, requests)
  {
    var run := ExpectedRun(s, requests);
    hide ExpectedRun;
    assert run.Some? ==> [] + run.value.0 == run.value.0;
  }

  /** Serves requests one after the other. However the stream is chunked, the answers are
      those of the whole stream and nothing is lost or duplicated. */
  method Serve(reader: Reader, requests: seq<Request>) returns (answers: seq<Answer>)
    requires reader.Valid()
    modifies reader
    ensures reader.Valid()
    ensures ExpectedRun(old(reader.Stream()), requests).Some? ==>
              ExpectedRun(old(reader.Stream()), requests) == Some((answers, reader.Stream()))
  {
    hide *;
    answers := [];
    ghost var expected := ExpectedRun(reader.Stream(), requests);
    RunStarts(reader.Stream(), requests);
    assert requests[0..] == requests;
    for i := 0 to |requests|
      invariant reader.Valid()
      invariant OnTrack(expected, answers, reader.Stream(), requests[i..])
    {
      ghost var before := reader.Stream();
      assert requests[i..][1..] == requests[i + 1..];
      match requests[i]
      case LineOf(max) =>
        var line := reader.ReadLine(max);
        LineStep(expected, answers, before, requests[i..], line, reader.Stream());
        answers := answers + [LineAnswer(line)];
      case BytesOf(count, max) =>
        var bytes := reader.ReadExact(count, max);
        var got := if bytes.Some? then bytes.value else [];
        BytesStep(expected, answers, before, requests[i..], got, reader.Stream());
        answers := answers + [BytesAnswer(got)];
    }
    assert requests[|requests|..] == [];
    RunEnds(expected, answers, reader.Stream());
  }
}
