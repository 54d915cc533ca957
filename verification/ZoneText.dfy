/** Cutting a TXT value into the character-strings of a zone file. */
module ZoneText {
  import opened Common
  import Utf8

  const TXT_CHUNK_LIMIT: nat := 255

  function CharBytes(c: char): (n: nat)
    ensures 1 <= n <= 4
  {
    |Utf8.EncodeChar(c)|
  }

  /** The length of a string in bytes. */
  function Bytes(s: string): (n: nat)
    ensures n >= |s|
  {
    if s == [] then 0 else CharBytes(s[0]) + Bytes(s[1..])
  }

  lemma {:induction false} BytesAreEncoded(s: string)
    ensures Bytes(s) == |Utf8.Encode(s)|
  {
    if s != [] {
      BytesAreEncoded(s[1..]);
    }
  }

  lemma {:induction false} BytesOfConcat(a: string, b: string)
    ensures Bytes(a + b) == Bytes(a) + Bytes(b)
  {
    if a == [] {
      assert a + b == b;
    } else {
      assert (a + b)[1..] == a[1..] + b;
      BytesOfConcat(a[1..], b);
    }
  }

  /** The characters in the first `k` bytes, when `k` is a character boundary. */
  function CharsIn(s: string, k: nat): (n: Option<nat>)
    ensures n.Some? ==> n.value <= |s| && Bytes(s[..n.value]) == k
  {
    if k == 0 then Some(0)
    else if s == [] || k < CharBytes(s[0]) then None
    else
      match CharsIn(s[1..], k - CharBytes(s[0]))
      case None => None
      case Some(n) => assert s[..n + 1][1..] == s[1..][..n]; Some(n + 1)
  }

  /** Every whole number of characters ends at a boundary. */
  lemma {:induction false} BoundaryAfter(s: string, n: nat)
    requires n <= |s|
    ensures CharsIn(s, Bytes(s[..n])) == Some(n)
  {
    if n > 0 {
      assert s[..n][1..] == s[1..][..n - 1];
      BoundaryAfter(s[1..], n - 1);
    }
  }

  function Join(chunks: seq<string>): string {
    if chunks == [] then [] else chunks[0] + Join(chunks[1..])
  }

  lemma {:induction false} JoinSnoc(chunks: seq<string>, chunk: string)
    ensures Join(chunks + [chunk]) == Join(chunks) + chunk
  {
    if chunks == [] {
      assert [chunk][1..] == [] && chunk + [] == chunk && [] + chunk == chunk;
      assert chunks + [chunk] == [chunk];
    } else {
      assert (chunks + [chunk])[1..] == chunks[1..] + [chunk];
      JoinSnoc(chunks[1..], chunk);
      assert chunks[0] + (Join(chunks[1..]) + chunk) == (chunks[0] + Join(chunks[1..])) + chunk;
    }
  }

  predicate Fits(chunks: seq<string>) {
    forall i :: 0 <= i < |chunks| ==> Bytes(chunks[i]) <= 255
  }

  /** No chunk is empty, and none could take the first character of what follows it. */
  predicate Filled(chunks: seq<string>, rest: string) {
    && (forall i :: 0 <= i < |chunks| ==> chunks[i] != [])
    && (forall i :: 0 <= i < |chunks| - 1 ==> Bytes(chunks[i]) + CharBytes(chunks[i + 1][0]) > 255)
    && (chunks != [] && rest != [] ==> Bytes(chunks[|chunks| - 1]) + CharBytes(rest[0]) > 255)
  }

  /** The cut after at most 255 bytes: the last one at a character boundary. */
  method LastBoundary(rest: string) returns (n: nat)
    requires rest != []
    ensures 0 < n <= |rest| && Bytes(rest[..n]) <= 255
    ensures n < |rest| ==> Bytes(rest[..n]) + CharBytes(rest[n]) > 255
  {
    BoundaryAfter(rest, |rest|);
    BoundaryAfter(rest, 1);
    FirstChar(rest);
    hide Bytes, CharsIn, CharBytes;
    var take := Min(Bytes(rest), TXT_CHUNK_LIMIT);
    while take < Bytes(rest) && CharsIn(rest, take).None?
      invariant CharBytes(rest[0]) <= take <= Min(Bytes(rest), TXT_CHUNK_LIMIT)
      invariant forall k :: take < k <= Min(Bytes(rest), TXT_CHUNK_LIMIT) ==> CharsIn(rest, k).None?
      decreases take
    {
      take := take - 1;
    }
    n := CharsIn(rest, take).value;
    assert n != 0 by { NoBytes(rest); }
    HeadIsFull(rest, n);
  }

  lemma NoBytes(s: string)
    ensures Bytes(s[..0]) == 0
  {}

  /** Cuts a value at character boundaries into chunks of at most 255 bytes; an empty value
      gives one empty chunk. */
  method TxtChunks(value: string) returns (chunks: seq<string>)
    ensures Join(chunks) == value
    ensures forall i :: 0 <= i < |chunks| ==> |Utf8.Encode(chunks[i])| <= 255
    ensures if value == [] then chunks == [[]] else Filled(chunks, [])
  {
    chunks := [];
    var rest := value;
    StartAndEmpty(value);
    hide *;
    while rest != []
      invariant Join(chunks) + rest == value
      invariant Fits(chunks) && Filled(chunks, rest)
      invariant value == [] ==> chunks == [] && rest == []
      decreases |rest|
    {
      var n := LastBoundary(rest);
      ChunkTaken(chunks, rest, n);
      chunks := chunks + [rest[..n]];
      rest := rest[n..];
    }
    AllTaken(chunks, value);
    if chunks == [] {
      chunks := [[]];
    }
    EncodedFits(chunks);
  }

  lemma StartAndEmpty(value: string)
    ensures Join([]) + value == value && Fits([]) && Filled([], value)
    ensures Join([[]]) == [] && Fits([[]])
  {}

  lemma AllTaken(chunks: seq<string>, value: string)
    requires Join(chunks) + [] == value
    ensures Join(chunks) == value && (chunks == [] ==> value == [])
  {
    assert Join(chunks) + [] == Join(chunks);
  }

  lemma EncodedFits(chunks: seq<string>)
    requires Fits(chunks)
    ensures forall i :: 0 <= i < |chunks| ==> |Utf8.Encode(chunks[i])| <= 255
  {
    forall i | 0 <= i < |chunks| ensures |Utf8.Encode(chunks[i])| <= 255 {
      BytesAreEncoded(chunks[i]);
    }
  }

  lemma FirstChar(s: string)
    requires s != []
    ensures s[..|s|] == s && s[..1] == [s[0]] && Bytes(s[..1]) == CharBytes(s[0]) <= Bytes(s)
  {
    assert s[..1][1..] == [];
  }

  /** A cut at the last boundary within the limit leaves no room for the next character. */
  lemma HeadIsFull(rest: string, n: nat)
    requires 0 < n <= |rest|
    requires Bytes(rest[..n]) <= 255
    requires forall k :: Bytes(rest[..n]) < k <= Min(Bytes(rest), 255) ==> CharsIn(rest, k).None?
    ensures n < |rest| ==> Bytes(rest[..n]) + CharBytes(rest[n]) > 255
  {
    if n < |rest| {
      BoundaryAfter(rest, n + 1);
      OneMore(rest, n);
    }
  }

  lemma OneMore(s: string, n: nat)
    requires n < |s|
    ensures Bytes(s[..n + 1]) == Bytes(s[..n]) + CharBytes(s[n]) <= Bytes(s)
  {
    hide *;
    TakeOneMore(s, n);
    BytesOfConcat(s[..n], [s[n]]);
    OneChar(s[n]);
    BytesOfConcat(s[..n + 1], s[n + 1..]);
  }

  lemma OneChar(c: char)
    ensures Bytes([c]) == CharBytes(c)
  {}

  lemma TakeOneMore(s: string, n: nat)
    requires n < |s|
    ensures s[..n + 1] == s[..n] + [s[n]] && s == s[..n + 1] + s[n + 1..]
  {}

  lemma ChunkTaken(chunks: seq<string>, rest: string, n: nat)
    requires 0 < n <= |rest| && Fits(chunks) && Filled(chunks, rest)
    requires Bytes(rest[..n]) <= 255
    requires n < |rest| ==> Bytes(rest[..n]) + CharBytes(rest[n]) > 255
    ensures Fits(chunks + [rest[..n]]) && Filled(chunks + [rest[..n]], rest[n..])
    ensures Join(chunks + [rest[..n]]) + rest[n..] == Join(chunks) + rest
  {
    JoinSnoc(chunks, rest[..n]);
    hide Bytes, Join;
    Regroup(Join(chunks), rest, n);
  }

  lemma Regroup(a: string, b: string, n: nat)
    requires n <= |b|
    ensures (a + b[..n]) + b[n..] == a + b
  {}

  /** No way of cutting the value into pieces within the limit needs fewer chunks. */
  lemma FewestChunks(chunks: seq<string>, pieces: seq<string>)
    requires Filled(chunks, []) && Join(chunks) == Join(pieces) && Fits(pieces)
    ensures |chunks| <= |pieces|
  {
    assert [] + Join(chunks) == Join(chunks);
    StaysAhead(chunks, pieces, []);
  }

  /** Two ways of cutting one string in two, the first cut no later than the second. */
  lemma Cut(a: string, b: string, c: string, d: string)
    requires a + b == c + d && |a| <= |c|
    ensures c == a + c[|a|..] && b == c[|a|..] + d
  {
    assert (a + b)[..|a|] == a && (c + d)[..|a|] == c[..|a|];
    assert (a + b)[|a|..] == b && (c + d)[|a|..] == c[|a|..] + d;
  }

  /** The chunks reach the end no later than pieces that started no later. */
  lemma {:induction false} StaysAhead(chunks: seq<string>, pieces: seq<string>, lead: string)
    requires Filled(chunks, []) && Fits(pieces) && Join(pieces) == lead + Join(chunks)
    ensures |chunks| <= |pieces|
    decreases |pieces|
  {
    if chunks != [] {
      assert Join(chunks) == chunks[0] + Join(chunks[1..]);
      assert pieces != [];
      var first, rest := pieces[0], Join(pieces[1..]);
      if |first| <= |lead| {
        Cut(first, rest, lead, Join(chunks));
        StaysAhead(chunks, pieces[1..], lead[|first|..]);
      } else {
        Cut(lead, Join(chunks), first, rest);
        var t := first[|lead|..];
        BytesOfConcat(lead, t);
        FirstIsLonger(chunks, t, rest);
        Cut(t, rest, chunks[0], Join(chunks[1..]));
        FilledTail(chunks);
        StaysAhead(chunks[1..], pieces[1..], chunks[0][|t|..]);
      }
    }
  }

  lemma FilledTail(chunks: seq<string>)
    requires chunks != [] && Filled(chunks, [])
    ensures Filled(chunks[1..], [])
  {
    var tail := chunks[1..];
    assert forall i :: 0 <= i < |tail| ==> tail[i] == chunks[i + 1];
  }

  /** The first chunk holds at least any prefix that fits. */
  lemma FirstIsLonger(chunks: seq<string>, t: string, more: string)
    requires chunks != [] && Filled(chunks, []) && Join(chunks) == t + more && Bytes(t) <= 255
    ensures |t| <= |chunks[0]|
  {
    var g, rest := chunks[0], Join(chunks[1..]);
    assert Join(chunks) == g + rest;
    NextFirst(chunks);
    if |g| < |t| {
      Cut(g, rest, t, more);
      assert t[|g|..][0] == rest[0];
      hide Bytes, CharBytes, Join;
      BytesOfConcat(g, t[|g|..]);
      AtLeastFirst(t[|g|..]);
    }
  }

  lemma AtLeastFirst(s: string)
    requires s != []
    ensures Bytes(s) >= CharBytes(s[0])
  {}

  lemma NextFirst(chunks: seq<string>)
    requires chunks != [] && Filled(chunks, [])
    ensures var rest := Join(chunks[1..]);
            rest != [] ==>
              && |chunks| > 1 && rest[0] == chunks[1][0]
              && Bytes(chunks[0]) + CharBytes(rest[0]) > 255
  {
    if |chunks| > 1 {
      assert chunks[1..][0] == chunks[1];
    } else {
      assert chunks[1..] == [];
    }
  }
}
