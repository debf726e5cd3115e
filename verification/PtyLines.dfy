/** How a run of the agent turns the chunks it reads from its terminal into lines. */
module PtyLines {
  import opened Text

  type Bytes = seq<bv8>

  const NEWLINE: bv8 := 10

  /** ASCII whitespace, as `bytes.strip` has it. */
  predicate IsBlank(line: Bytes) {
    forall b <- line :: b == 32 || 9 <= b <= 13
  }

  // ── Splitting on newlines ─────────────────────────────────────────────────

  function FirstNewline(b: Bytes): (i: nat)
    requires NEWLINE in b
    ensures i < |b| && b[i] == NEWLINE && NEWLINE !in b[..i]
  {
    if b[0] == NEWLINE then 0 else 1 + FirstNewline(b[1..])
  }

  /** The newline-free pieces of a byte string; there is always at least one. */
  function Pieces(b: Bytes): (p: seq<Bytes>)
    ensures p != []
  {
    if NEWLINE !in b then [b]
    else
      var i := FirstNewline(b);
      [b[..i]] + Pieces(b[i + 1..])
  }

  function Joined(pieces: seq<Bytes>): Bytes
    requires pieces != []
  {
    if |pieces| == 1 then pieces[0] else pieces[0] + [NEWLINE] + Joined(pieces[1..])
  }

  /** `Pieces` is the only way to cut a byte string at all its newlines. */
  lemma {:induction false} PiecesUnique(b: Bytes, pieces: seq<Bytes>)
    ensures pieces == Pieces(b) <==> pieces != [] && Joined(pieces) == b && forall p <- pieces :: NEWLINE !in p
  {
    PiecesJoin(b);
    if pieces != [] && Joined(pieces) == b && forall p <- pieces :: NEWLINE !in p {
      JoinedPieces(pieces);
    }
  }

  lemma {:induction false} PiecesJoin(b: Bytes)
    ensures Joined(Pieces(b)) == b && forall p <- Pieces(b) :: NEWLINE !in p
  {
    if NEWLINE in b {
      var i := FirstNewline(b);
      var tail := b[i + 1..];
      PiecesJoin(tail);
      assert Pieces(b)[1..] == Pieces(tail);
      assert b == b[..i] + [NEWLINE] + tail;
    }
  }

  lemma {:induction false} FirstNewlineAt(p: Bytes, rest: Bytes)
    requires NEWLINE !in p
    ensures NEWLINE in p + [NEWLINE] + rest && FirstNewline(p + [NEWLINE] + rest) == |p|
  {
    var b := p + [NEWLINE] + rest;
    assert b[|p|] == NEWLINE;
    if p != [] {
      FirstNewlineAt(p[1..], rest);
      assert b[1..] == p[1..] + [NEWLINE] + rest;
    }
  }

  lemma PiecesCons(p: Bytes, rest: Bytes)
    requires NEWLINE !in p
    ensures Pieces(p + [NEWLINE] + rest) == [p] + Pieces(rest)
  {
    var b := p + [NEWLINE] + rest;
    FirstNewlineAt(p, rest);
    hide FirstNewline;
    assert b[..|p|] == p && b[|p| + 1..] == rest;
  }

  /** The first line of a byte string that has a newline. */
  lemma CutAtNewline(b: Bytes)
    requires NEWLINE in b
    ensures var i := FirstNewline(b);
      b == b[..i] + [NEWLINE] + b[i + 1..] && Pieces(b) == [b[..i]] + Pieces(b[i + 1..])
  {
  }

  lemma {:induction false} JoinedPieces(pieces: seq<Bytes>)
    requires pieces != [] && forall p <- pieces :: NEWLINE !in p
    ensures Pieces(Joined(pieces)) == pieces
  {
    if |pieces| > 1 {
      JoinedPieces(pieces[1..]);
      PiecesCons(pieces[0], Joined(pieces[1..]));
    }
  }

  /** More bytes only touch the last piece. */
  lemma {:induction false} PiecesAppend(a: Bytes, c: Bytes)
    ensures var p := Pieces(a); Pieces(a + c) == p[..|p| - 1] + Pieces(p[|p| - 1] + c)
    decreases |a|
  {
    hide Pieces;
    hide FirstNewline;
    if NEWLINE in a {
      CutAtNewline(a);
      var i := FirstNewline(a);
      var head, tail := a[..i], a[i + 1..];
      PiecesAppend(tail, c);
      PiecesCons(head, tail + c);
      AppendInside(head, tail, c);
      LastOfCons(head, Pieces(tail), Pieces(Pieces(tail)[|Pieces(tail)| - 1] + c));
    } else {
      NoNewline(a);
      hide *;
      assert [a][..0] + Pieces(a + c) == Pieces(a + c);
    }
  }

  lemma AppendInside(head: Bytes, tail: Bytes, c: Bytes)
    ensures head + [NEWLINE] + tail + c == head + [NEWLINE] + (tail + c)
  {
  }

  lemma LastOfCons(head: Bytes, q: seq<Bytes>, r: seq<Bytes>)
    requires q != []
    ensures var p := [head] + q;
      p[..|p| - 1] + r == [head] + (q[..|q| - 1] + r) && p[|p| - 1] == q[|q| - 1]
  {
  }

  /** More bytes after `lines` and an unfinished line. */
  lemma PiecesGrow(received: Bytes, lines: seq<Bytes>, buf: Bytes, chunk: Bytes)
    requires Pieces(received) == lines + [buf]
    ensures Pieces(received + chunk) == lines + Pieces(buf + chunk)
  {
    PiecesAppend(received, chunk);
    hide *;
    assert (lines + [buf])[..|lines|] == lines;
  }

  lemma HandledAppend<S>(handle: (S, Bytes) -> S, start: S, lines: seq<Bytes>, line: Bytes)
    ensures Handled(handle, start, lines + [line]) == handle(Handled(handle, start, lines), line)
  {
    assert (lines + [line])[..|lines|] == lines;
  }

  // ── Reading ───────────────────────────────────────────────────────────────

  /** What successive reads gave: `None` is an I/O error, which ends the stream like an empty read
      does; after the last read comes the end of the stream. */
  predicate Ends(read: Option<Bytes>) {
    read == None || read == Some([])
  }

  function Stream(chunks: seq<Option<Bytes>>): Bytes {
    if chunks == [] || Ends(chunks[0]) then [] else chunks[0].value + Stream(chunks[1..])
  }

  function HandledLines(stream: Bytes): seq<Bytes> {
    var p := Pieces(stream);
    p[..|p| - 1] + if IsBlank(p[|p| - 1]) then [] else [p[|p| - 1]]
  }

  /** The state a line handler ends in: parsing one JSON event per line, collecting the text. */
  function Handled<S>(handle: (S, Bytes) -> S, start: S, lines: seq<Bytes>): S {
    if lines == [] then start
    else handle(Handled(handle, start, lines[..|lines| - 1]), lines[|lines| - 1])
  }

  /** The reading loop. However the bytes are cut into reads, the handler sees the newline-split of
      the whole stream, and a last line without a newline only if it is not blank. */
  method RunClaude<S>(chunks: seq<Option<Bytes>>, start: S, handle: (S, Bytes) -> S) returns (state: S)
    ensures state == Handled(handle, start, HandledLines(Stream(chunks)))
  {
    state := start;
    var buf: Bytes := [];
    ghost var lines: seq<Bytes> := [];
    ghost var received: Bytes := [];
    var k := 0;
    assert Pieces([]) == [[]];
    hide Pieces;
    hide FirstNewline;
    hide Handled;
    assert Handled(handle, start, []) == start by {
      HandledNothing(handle, start);
    }
    while k < |chunks| && !Ends(chunks[k])
      invariant k <= |chunks| && Stream(chunks) == received + Stream(chunks[k..])
      invariant Pieces(received) == lines + [buf]
      invariant state == Handled(handle, start, lines)
    {
      var chunk := chunks[k].value;
      StreamStep(chunks, k);
      Assoc(received, chunk, Stream(chunks[k + 1..]));
      PiecesGrow(received, lines, buf, chunk);
      received := received + chunk;
      buf := buf + chunk;
      while NEWLINE in buf
        invariant Pieces(received) == lines + Pieces(buf)
        invariant state == Handled(handle, start, lines)
        decreases |buf|
      {
        CutAtNewline(buf);
        var i := FirstNewline(buf);
        var line := buf[..i];
        buf := buf[i + 1..];
        assert lines + ([line] + Pieces(buf)) == (lines + [line]) + Pieces(buf);
        HandledAppend(handle, start, lines, line);
        lines := lines + [line];
        state := handle(state, line);
      }
      NoNewline(buf);
      k := k + 1;
    }
    assert received == Stream(chunks);
    assert (lines + [buf])[..|lines|] == lines;
    if !IsBlank(buf) {
      HandledAppend(handle, start, lines, buf);
      state := handle(state, buf);
    } else {
      assert lines + [] == lines;
    }
  }

  lemma NoNewline(b: Bytes)
    requires NEWLINE !in b
    ensures Pieces(b) == [b]
  {
  }

  lemma HandledNothing<S>(handle: (S, Bytes) -> S, start: S)
    ensures Handled(handle, start, []) == start
  {
  }

  lemma StreamStep(chunks: seq<Option<Bytes>>, k: nat)
    requires k < |chunks| && !Ends(chunks[k])
    ensures Stream(chunks[k..]) == chunks[k].value + Stream(chunks[k + 1..])
  {
    assert chunks[k..][1..] == chunks[k + 1..];
  }

  lemma Assoc(a: Bytes, b: Bytes, c: Bytes)
    ensures a + (b + c) == (a + b) + c
  {
  }

  /** Every stream is lines ended by newlines and what follows them. The handler gets all the lines,
      empty ones included, and what follows unless that is nothing but ASCII white space. */
  lemma LinesAndRest(lines: seq<Bytes>, rest: Bytes)
    requires (forall l <- lines :: NEWLINE !in l) && NEWLINE !in rest
    ensures HandledLines(Joined(lines + [rest])) ==
      if forall b <- rest :: b in {9, 10, 11, 12, 13, 32} then lines else lines + [rest]
  {
    JoinedPieces(lines + [rest]);
  }

  /** The stream is what was read up to the first end, however it was cut into reads. */
  lemma {:induction false} StreamConcat(a: seq<Option<Bytes>>, b: seq<Option<Bytes>>, c: Bytes)
    ensures Stream(a + b) == if None in a || Some([]) in a then Stream(a) else Stream(a) + Stream(b)
    ensures Stream([Some(c)]) == c && Stream([None] + b) == []
  {
    assert ([Some(c)] + b)[1..] == b;
    if a == [] {
      assert a + b == b;
    } else {
      assert (a + b)[1..] == a[1..] + b;
      StreamConcat(a[1..], b, c);
      assert a == [a[0]] + a[1..];
      if !Ends(a[0]) {
        Assoc(a[0].value, Stream(a[1..]), Stream(b));
      }
    }
  }
}
