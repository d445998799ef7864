/** Newline framing of RPC requests over a buffered connection
    (internal/daemon/serve.go). */
module RequestFraming {
  import opened Prelude

  const NEWLINE: Byte := 10

  // -------------------------------------------------------------- the pieces

  /** One request: it ends at its only newline. */
  ghost predicate Terminated(piece: Bytes) {
    piece != [] && piece[|piece| - 1] == NEWLINE && NEWLINE !in piece[..|piece| - 1]
  }

  /** A last request without its newline. */
  ghost predicate Unterminated(piece: Bytes) {
    piece != [] && NEWLINE !in piece
  }

  /** `pieces` are the requests of the stream `s`: all terminated, except perhaps
      the last one. */
  ghost predicate Frames(s: Bytes, pieces: seq<Bytes>) {
    && Concat(pieces) == s
    && (forall i :: 0 <= i < |pieces| ==> Terminated(pieces[i]) || (i == |pieces| - 1 && Unterminated(pieces[i])))
  }

  function IndexOfNewline(s: Bytes): (i: nat)
    ensures i <= |s| && NEWLINE !in s[..i] && (i < |s| ==> s[i] == NEWLINE)
  {
    if s == [] || s[0] == NEWLINE then 0
    else
      var i := IndexOfNewline(s[1..]) + 1;
      assert s[..i] == [s[0]] + s[1..][..i - 1];
      i
  }

  /** The first request of a stream that is not empty. */
  function FirstPiece(s: Bytes): (piece: Bytes)
    ensures piece <= s && (s != [] ==> piece != [])
  {
    var i := IndexOfNewline(s);
    if i < |s| then s[..i + 1] else s
  }

  function Pieces(s: Bytes): seq<Bytes> {
    if s == [] then [] else [FirstPiece(s)] + Pieces(s[|FirstPiece(s)|..])
  }

  /** Whatever starts with a newline-free part and then a newline, or is newline
      free to the end, is the first piece. */
  lemma FirstPieceIs(s: Bytes, piece: Bytes)
    requires piece <= s
    requires Terminated(piece) || (Unterminated(piece) && piece == s)
    ensures FirstPiece(s) == piece
  {
    var i := IndexOfNewline(s);
    if Terminated(piece) {
      var last := |piece| - 1;
      assert s[last] == NEWLINE;
      forall j | 0 <= j < last ensures s[j] != NEWLINE {
        assert piece[..last][j] == s[j];
      }
      forall j | 0 <= j < i ensures s[j] != NEWLINE {
        assert s[..i][j] == s[j];
      }
    }
  }

  lemma FirstPieceShape(s: Bytes)
    requires s != []
    ensures Terminated(FirstPiece(s)) || (Unterminated(FirstPiece(s)) && FirstPiece(s) == s)
  {
    var i := IndexOfNewline(s);
    if i < |s| {
      assert s[..i + 1][..i] == s[..i];
    } else {
      assert s[..i] == s;
    }
  }

  lemma FramesCons(first: Bytes, rest: Bytes, pieces: seq<Bytes>)
    requires Frames(rest, pieces) && (Terminated(first) || (Unterminated(first) && pieces == []))
    ensures Frames(first + rest, [first] + pieces)
  {
    var all := [first] + pieces;
    assert all[1..] == pieces;
    forall i | 0 <= i < |all| ensures Terminated(all[i]) || (i == |all| - 1 && Unterminated(all[i])) {
      assert i > 0 ==> all[i] == pieces[i - 1];
    }
  }

  /** Every stream has its frames, and only one way to have them. */
  lemma {:induction false} PiecesAreTheFrames(s: Bytes)
    ensures Frames(s, Pieces(s))
    decreases |s|
  {
    if s != [] {
      var first := FirstPiece(s);
      var rest := s[|first|..];
      FirstPieceShape(s);
      PiecesAreTheFrames(rest);
      assert s == first + rest;
      FramesCons(first, rest, Pieces(rest));
    }
  }

  lemma {:induction false} FramesAreUnique(s: Bytes, pieces: seq<Bytes>)
    requires Frames(s, pieces)
    ensures pieces == Pieces(s)
    decreases |pieces|
  {
    if pieces != [] {
      var rest := pieces[1..];
      assert s == pieces[0] + Concat(rest);
      if |pieces| == 1 {
        assert Concat(rest) == [];
      }
      FirstPieceIs(s, pieces[0]);
      assert s[|pieces[0]|..] == Concat(rest);
      forall i | 0 <= i < |rest| ensures Terminated(rest[i]) || (i == |rest| - 1 && Unterminated(rest[i])) {
        assert rest[i] == pieces[i + 1];
      }
      FramesAreUnique(Concat(rest), rest);
    }
  }

  // ---------------------------------------------------------- the connection

  datatype SliceEnd = AtNewline | BufferFull | AtEof | ReadFailed

  /** bufio.Reader over a connection that has `rest` still to deliver. */
  class BufReader {
    var rest: Bytes
    const size: nat        // buffer size
    const reliable: bool   // no read fails before the end of the stream

    constructor (stream: Bytes, size: nat, reliable: bool)
      requires size > 0
      ensures rest == stream && this.size == size && this.reliable == reliable
    {
      rest := stream;
      this.size, this.reliable := size, reliable;
    }

    /** ReadSlice('\n'): up to the newline if it is within the buffer, else a full
        buffer, else what the stream has left. */
    method ReadSlice() returns (chunk: Bytes, end: SliceEnd)
      requires size > 0
      modifies this
      ensures chunk + rest == old(rest) && |chunk| <= size
      ensures end == AtNewline ==> Terminated(chunk)
      ensures end != AtNewline ==> NEWLINE !in chunk
      ensures end == BufferFull ==> chunk != []
      ensures end == AtEof ==> rest == []
      ensures reliable ==> end != ReadFailed
    {
      var i := IndexOfNewline(rest);
      var fails := *;
      var fullFirst := *;
      var n;
      if i < |rest| && i < size {
        n, end := i + 1, AtNewline;
        assert rest[..n][..i] == rest[..i];
      } else if !reliable && fails {
        n, end := if i < size then i else size, ReadFailed;
        assert rest[..n] == rest[..i][..n];
      } else if |rest| > size || (|rest| == size && fullFirst) {
        n, end := size, BufferFull;
        assert rest[..n] == rest[..i][..n];
      } else {
        n, end := |rest|, AtEof;
        assert rest[..n] == rest[..i];
      }
      chunk := rest[..n];
      rest := rest[n..];
    }
  }

  datatype Request = Line(bytes: Bytes) | TooLong | Eof | Failed

  /** What one call returns on a reliable connection. */
  function NextRequest(s: Bytes, max: nat): Request {
    if s == [] then Eof
    else if |FirstPiece(s)| > max then TooLong
    else Line(FirstPiece(s))
  }

  /** readRequestLine. The line it accumulates never exceeds `max`, and a refusal
      comes after reading at most one buffer more. */
  method ReadRequestLine(br: BufReader, max: nat) returns (r: Request)
    requires br.size > 0
    modifies br
    ensures br.reliable ==> r == NextRequest(old(br.rest), max)
    ensures r.Line? ==> r.bytes != [] && |r.bytes| <= max && r.bytes + br.rest == old(br.rest)
                        && r.bytes == FirstPiece(old(br.rest))
    ensures r.TooLong? ==> old(br.rest) != [] && |FirstPiece(old(br.rest))| > max
    ensures |old(br.rest)| <= |br.rest| + max + br.size
    ensures r.Eof? ==> br.rest == []
  {
    ghost var stream := br.rest;
    var line: Bytes := [];
    while true
      invariant line + br.rest == stream && |line| <= max && NEWLINE !in line
      decreases |br.rest|
    {
      var chunk, end := br.ReadSlice();
      assert stream == (line + chunk) + br.rest;
      if |line| + |chunk| > max {
        TooLongPiece(stream, line, chunk, max, end);
        return TooLong;
      }
      ChunkEnds(line, chunk);
      line := line + chunk;
      match end {
        case AtNewline =>
          FirstPieceIs(stream, line);
          return Line(line);
        case BufferFull =>
        case AtEof =>
          if |line| == 0 {
            return Eof;
          }
          assert line == stream;
          FirstPieceIs(stream, line);
          return Line(line);
        case ReadFailed =>
          return Failed;
      }
    }
  }

  /** A chunk ends a newline-free line exactly as it ends itself. */
  lemma ChunkEnds(line: Bytes, chunk: Bytes)
    requires NEWLINE !in line
    ensures Terminated(chunk) ==> Terminated(line + chunk)
    ensures NEWLINE !in chunk ==> NEWLINE !in line + chunk
  {
    if Terminated(chunk) {
      var all := line + chunk;
      assert all[..|all| - 1] == line + chunk[..|chunk| - 1];
    }
  }

  lemma TooLongPiece(s: Bytes, line: Bytes, chunk: Bytes, max: nat, end: SliceEnd)
    requires line + chunk <= s && |line| + |chunk| > max && |line| <= max
    requires NEWLINE !in line && (if end == AtNewline then Terminated(chunk) else NEWLINE !in chunk)
    ensures s != [] && |FirstPiece(s)| > max
  {
    var all := line + chunk;
    forall j | 0 <= j < |all| - 1 ensures s[j] != NEWLINE {
      assert s[j] == all[j];
      if j >= |line| && end == AtNewline {
        assert chunk[..|chunk| - 1][j - |line|] == all[j];
      }
    }
  }

  // ------------------------------------------------------- a whole connection

  /** How many leading pieces fit. */
  function Accepted(pieces: seq<Bytes>, max: nat): (n: nat)
    ensures n <= |pieces| && (forall i :: 0 <= i < n ==> |pieces[i]| <= max)
    ensures n < |pieces| ==> |pieces[n]| > max
  {
    if pieces == [] || |pieces[0]| > max then 0 else 1 + Accepted(pieces[1..], max)
  }

  /** ServeConn's read loop: it hands out the stream's requests in order, refuses
      only one that is too long, and on a connection that does not fail stops
      nowhere else, independently of how the reads were chunked. */
  method ReadRequests(br: BufReader, max: nat) returns (requests: seq<Bytes>, refused: bool)
    requires br.size > 0
    modifies br
    ensures var pieces := Pieces(old(br.rest));
            var n := Accepted(pieces, max);
            && requests <= pieces[..n]
            && (refused ==> requests == pieces[..n] && n < |pieces|)
            && (br.reliable ==> requests == pieces[..n] && (refused <==> n < |pieces|))
  {
    ghost var stream := br.rest;
    ghost var all := Pieces(stream);
    requests, refused := [], false;
    while true
      invariant |requests| <= |all| && requests == all[..|requests|]
      invariant Pieces(br.rest) == all[|requests|..]
      invariant forall i :: 0 <= i < |requests| ==> |requests[i]| <= max
      invariant !refused
      decreases |br.rest|
    {
      ghost var before := br.rest;
      ghost var n := |requests|;
      var r := ReadRequestLine(br, max);
      if r.Line? {
        assert all[n..][0] == r.bytes;
        assert br.rest == before[|r.bytes|..];
        assert Pieces(before)[1..] == Pieces(br.rest);
        requests := requests + [r.bytes];
        assert all[..n + 1] == all[..n] + [all[n]];
      } else {
        refused := r.TooLong?;
        AcceptedAtLeast(all, max, n);
        if refused || br.reliable {
          AcceptedIs(all, max, n);
        }
        return;
      }
    }
  }

  lemma AcceptedAtLeast(pieces: seq<Bytes>, max: nat, n: nat)
    requires n <= |pieces| && forall i :: 0 <= i < n ==> |pieces[..n][i]| <= max
    ensures n <= Accepted(pieces, max)
  {
    assert forall i :: 0 <= i < n ==> pieces[i] == pieces[..n][i];
  }

  lemma {:induction false} AcceptedIs(pieces: seq<Bytes>, max: nat, n: nat)
    requires n <= |pieces| && forall i :: 0 <= i < n ==> |pieces[..n][i]| <= max
    requires n < |pieces| ==> |pieces[n..][0]| > max
    ensures Accepted(pieces, max) == n
  {
    assert forall i :: 0 <= i < n ==> |pieces[i]| <= max by {
      assert forall i :: 0 <= i < n ==> pieces[i] == pieces[..n][i];
    }
  }
}
