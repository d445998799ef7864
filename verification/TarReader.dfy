/** The release archive reader (composer/Bootstrap.php): entries of the ustar
    Interchange Format (pax utility, POSIX.1-2017), with checksum, octal fields,
    block padding, an allowlist, a size cap and a duplicate check. */
module TarReader {
  import opened Prelude

  const BLOCK := 512
  const MAX_ARCHIVE := 268435456
  const CHUNK := 1048576

  function Ascii(s: string): Bytes {
    seq(|s|, i requires 0 <= i < |s| => (s[i] as int % 256) as Byte)
  }

  function Repeat(b: Byte, n: nat): Bytes {
    seq(n, i => b)
  }

  const NUL: Byte := 0
  const SPACE: Byte := 32
  const ZEROS := Repeat(NUL, BLOCK)

  const TREEMAN := Ascii("treeman")
  const TREEMAND := Ascii("treemand")

  // ------------------------------------------------------------------- fields

  function Field(h: Bytes, at: nat, len: nat): Bytes
    requires at + len <= |h|
  {
    h[at..at + len]
  }

  /** rtrim($s, "\0") */
  function TrimNuls(s: Bytes): Bytes {
    if s != [] && s[|s| - 1] == NUL then TrimNuls(s[..|s| - 1]) else s
  }

  predicate Blank(b: Byte) {
    b == NUL || b == SPACE
  }

  function TrimBlanksRight(s: Bytes): Bytes {
    if s != [] && Blank(s[|s| - 1]) then TrimBlanksRight(s[..|s| - 1]) else s
  }

  function TrimBlanksLeft(s: Bytes): Bytes {
    if s != [] && Blank(s[0]) then TrimBlanksLeft(s[1..]) else s
  }

  predicate OctalDigit(b: Byte) {
    48 <= b <= 55
  }

  function OctalValue(s: Bytes): nat
    requires forall i :: 0 <= i < |s| ==> OctalDigit(s[i])
  {
    if s == [] then 0 else
      assert OctalDigit(s[|s| - 1]);
      8 * OctalValue(s[..|s| - 1]) + (s[|s| - 1] as int - 48)
  }

  /** octal(): blanks around at least one octal digit; None is an exception. */
  function Octal(field: Bytes): Option<nat> {
    var s := TrimBlanksRight(TrimBlanksLeft(field));
    if s == [] || !(forall i :: 0 <= i < |s| ==> OctalDigit(s[i])) then None else Some(OctalValue(s))
  }

  function ByteSum(s: Bytes): nat {
    if s == [] then 0 else ByteSum(s[..|s| - 1]) + s[|s| - 1] as int
  }

  /** The header with its checksum field read as spaces. */
  function Blanked(h: Bytes): Bytes
    requires |h| == BLOCK
  {
    h[..148] + Repeat(SPACE, 8) + h[156..]
  }

  datatype Error =
    | Truncated | BadTerminator | BadNumber | BadChecksum | UnsafeArchive
    | UnsafeEntry | EmptyBinary | CannotCreate | MissingBinary

  datatype Header = Bad(error: Error) | Head(name: Bytes, prefix: Bytes, kind: Byte, size: nat, link: Bytes)

  function ParseHeader(h: Bytes): Header
    requires |h| == BLOCK
  {
    var sum := Octal(Field(h, 148, 8));
    var size := Octal(Field(h, 124, 12));
    if sum.None? then Bad(BadNumber)
    else if ByteSum(Blanked(h)) != sum.value then Bad(BadChecksum)
    else if size.None? then Bad(BadNumber)
    else Head(TrimNuls(Field(h, 0, 100)), TrimNuls(Field(h, 345, 155)), h[156], size.value,
              TrimNuls(Field(h, 157, 100)))
  }

  // ------------------------------------------------------------------ entries

  predicate IsDirectory(stage: Bytes, h: Header)
    requires h.Head?
  {
    (h.name == stage + Ascii("/") || h.name == stage) && h.kind == 53 && h.size == 0
  }

  function Inside(stage: Bytes, name: string): Bytes {
    stage + Ascii("/") + Ascii(name)
  }

  predicate Allowed(stage: Bytes, name: Bytes) {
    || name == Inside(stage, "treeman") || name == Inside(stage, "treemand") || name == Inside(stage, "README.md")
    || name == Inside(stage, "LICENSE-MIT") || name == Inside(stage, "LICENSE-APACHE")
  }

  predicate IsFile(stage: Bytes, h: Header)
    requires h.Head?
  {
    Allowed(stage, h.name) && (h.kind == 0 || h.kind == 48) && h.link == []
  }

  /** The file an entry is extracted to, if it is one of the binaries. */
  function Output(stage: Bytes, name: Bytes): Option<Bytes> {
    if name == Inside(stage, "treeman") then Some(TREEMAN)
    else if name == Inside(stage, "treemand") then Some(TREEMAND)
    else None
  }

  function Padding(size: nat): (n: nat)
    ensures (size + n) % BLOCK == 0 && n < BLOCK
  {
    (BLOCK - size % BLOCK) % BLOCK
  }

  type Files = map<Bytes, Bytes>

  /** What the loop remembers: names seen, bytes accounted for, files written. */
  datatype Progress = Progress(seen: set<Bytes>, total: nat, files: Files)

  datatype Step = Fail(error: Error) | Finish(files: Files) | More(rest: Bytes, next: Progress)

  /** One turn of the extraction loop on the bytes still in the stream. */
  function Next(s: Bytes, stage: Bytes, p: Progress): Step {
    if |s| < BLOCK then Fail(Truncated)
    else if s[..BLOCK] == ZEROS then Terminator(s, stage, p)
    else
      var h := ParseHeader(s[..BLOCK]);
      if h.Bad? then Fail(h.error)
      else if p.total + h.size + BLOCK > MAX_ARCHIVE || h.prefix != [] || h.name in p.seen then Fail(UnsafeArchive)
      else
        var q := p.(seen := p.seen + {h.name}, total := p.total + h.size + BLOCK);
        if IsDirectory(stage, h) then More(s[BLOCK..], q)
        else if !IsFile(stage, h) then Fail(UnsafeEntry)
        else Contents(s, stage, h, q)
  }

  function Terminator(s: Bytes, stage: Bytes, p: Progress): Step
    requires |s| >= BLOCK
  {
    if |s| < 2 * BLOCK then Fail(Truncated)
    else if s[BLOCK..2 * BLOCK] != ZEROS then Fail(BadTerminator)
    else if Inside(stage, "treeman") in p.seen && Inside(stage, "treemand") in p.seen then Finish(p.files)
    else Fail(MissingBinary)
  }

  function Contents(s: Bytes, stage: Bytes, h: Header, q: Progress): Step
    requires |s| >= BLOCK && h.Head?
  {
    var out := Output(stage, h.name);
    var end := BLOCK + h.size + Padding(h.size);
    if out.Some? && h.size == 0 then Fail(EmptyBinary)
    else if out.Some? && out.value in q.files then Fail(CannotCreate)
    else if |s| < end then Fail(Truncated)
    else More(s[end..], if out.Some? then q.(files := q.files[out.value := s[BLOCK..BLOCK + h.size]]) else q)
  }

  lemma NextConsumes(s: Bytes, stage: Bytes, p: Progress)
    requires Next(s, stage, p).More?
    ensures |Next(s, stage, p).rest| + BLOCK <= |s|
    ensures (|s| - |Next(s, stage, p).rest|) % BLOCK == 0
  {
  }

  /** The whole extraction, read in one piece. */
  function Extracted(s: Bytes, stage: Bytes, p: Progress): (r: Step)
    ensures !r.More?
    decreases |s|
  {
    var step := Next(s, stage, p);
    if step.More? then
      NextConsumes(s, stage, p);
      Extracted(step.rest, stage, step.next)
    else step
  }

  /** Where the entries of an archive start. */
  function EntryOffsets(s: Bytes, stage: Bytes, p: Progress, at: nat): seq<nat>
    decreases |s|
  {
    var step := Next(s, stage, p);
    if step.More? then
      NextConsumes(s, stage, p);
      [at] + EntryOffsets(step.rest, stage, step.next, at + (|s| - |step.rest|))
    else [at]
  }

  /** Every header is read at a block boundary, on any input. */
  lemma {:induction false} EntriesAreAligned(s: Bytes, stage: Bytes, p: Progress, at: nat)
    requires at % BLOCK == 0
    ensures forall k :: k in EntryOffsets(s, stage, p, at) ==> k % BLOCK == 0
    decreases |s|
  {
    var step := Next(s, stage, p);
    if step.More? {
      NextConsumes(s, stage, p);
      EntriesAreAligned(step.rest, stage, step.next, at + (|s| - |step.rest|));
    }
  }

  // --------------------------------------------------------------- the stream

  function Min(a: nat, b: nat): nat {
    if a < b then a else b
  }

  /** A gzip stream with `rest` still to deliver. */
  class GzStream {
    var rest: Bytes
    const reliable: bool     // no read fails before the end

    constructor (data: Bytes, reliable: bool)
      ensures rest == data && this.reliable == reliable
    {
      rest := data;
      this.reliable := reliable;
    }

    /** gzread: as few or as many of the bytes asked for as it likes; nothing at
        the end or on a failure. */
    method GzRead(n: nat) returns (chunk: Bytes)
      requires n > 0
      modifies this
      ensures chunk + rest == old(rest) && |chunk| <= n
      ensures reliable && old(rest) != [] ==> chunk != []
    {
      var k: nat := *;
      var fails := *;
      k := if k < 1 then 1 else Min(k, n);
      k := if !reliable && fails then 0 else Min(k, |rest|);
      chunk := rest[..k];
      rest := rest[k..];
    }
  }

  /** read(): exactly `length` bytes, or None for the truncation exception. */
  method ReadExactly(stream: GzStream, length: nat) returns (data: Option<Bytes>)
    modifies stream
    ensures data.Some? ==> |data.value| == length && data.value + stream.rest == old(stream.rest)
    ensures data.None? && stream.reliable ==> |old(stream.rest)| < length
  {
    ghost var all := stream.rest;
    var got: Bytes := [];
    while |got| < length
      invariant |got| <= length && got + stream.rest == all
      decreases length - |got|
    {
      ghost var before := stream.rest;
      var chunk := stream.GzRead(Min(CHUNK, length - |got|));
      if chunk == [] {
        return None;
      }
      assert got + chunk + stream.rest == got + before;
      got := got + chunk;
    }
    return Some(got);
  }

  /** The destination directory. */
  class Folder {
    var files: Files
    const reliable: bool     // no write or chmod fails

    constructor (files: Files, reliable: bool)
      ensures this.files == files && this.reliable == reliable
    {
      this.files := files;
      this.reliable := reliable;
    }

    /** fopen with mode xb: only a file that does not exist yet. */
    method Create(name: Bytes) returns (ok: bool)
      modifies this
      ensures ok ==> name !in old(files) && files == old(files)[name := []]
      ensures !ok ==> files == old(files)
      ensures reliable ==> (ok <==> name !in old(files))
    {
      var fails := *;
      ok := name !in files && (reliable || !fails);
      if ok {
        files := files[name := []];
      }
    }

    method Append(name: Bytes, chunk: Bytes) returns (ok: bool)
      requires name in files
      modifies this
      ensures ok ==> files == old(files)[name := old(files)[name] + chunk]
      ensures reliable ==> ok
    {
      var fails := *;
      ok := reliable || !fails;
      if ok {
        files := files[name := files[name] + chunk];
      }
    }
  }

  /** The inner loop of extract(): copies one entry's bytes, to `out` if it is a
      binary, in pieces of at most a megabyte. */
  method CopyOut(stream: GzStream, size: nat, folder: Folder, out: Option<Bytes>) returns (ok: bool)
    requires out.Some? ==> out.value in folder.files && folder.files[out.value] == []
    modifies stream, folder
    ensures ok ==> size <= |old(stream.rest)| && stream.rest == old(stream.rest)[size..]
    ensures ok && out.Some? ==> folder.files == old(folder.files)[out.value := old(stream.rest)[..size]]
    ensures ok && out.None? ==> folder.files == old(folder.files)
    ensures !ok && stream.reliable && folder.reliable ==> |old(stream.rest)| < size
  {
    ghost var all := stream.rest;
    ghost var before := folder.files;
    var remaining := size;
    while remaining > 0
      invariant 0 <= remaining <= size && size - remaining <= |all|
      invariant stream.rest == all[size - remaining..]
      invariant folder.files == if out.Some? then before[out.value := all[..size - remaining]] else before
    {
      ghost var done := size - remaining;
      var chunk := ReadExactly(stream, Min(CHUNK, remaining));
      if chunk.None? {
        return false;
      }
      var piece := chunk.value;
      assert all[done..] == piece + stream.rest;
      assert stream.rest == all[done + |piece|..] && all[..done + |piece|] == all[..done] + piece;
      remaining := remaining - |piece|;
      if out.Some? {
        var written := folder.Append(out.value, piece);
        if !written {
          return false;
        }
      }
    }
    return true;
  }

  // --------------------------------------------------------------- the loop

  /** One turn of extract()'s loop. Some(p) goes on, None stops; `finished` tells a
      normal return from an exception. */
  method Turn(stream: GzStream, stage: Bytes, folder: Folder, seen: set<Bytes>, total: nat)
    returns (p: Option<Progress>, finished: bool)
    modifies stream, folder
    ensures var step := Next(old(stream.rest), stage, Progress(seen, total, old(folder.files)));
            && (p.Some? ==> step == More(stream.rest, p.value) && p.value.files == folder.files)
            && (p.None? && finished ==> step == Finish(folder.files))
            && (p.None? && !finished && stream.reliable && folder.reliable ==> step.Fail?)
  {
    ghost var s := stream.rest;
    var header := ReadExactly(stream, BLOCK);
    if header.None? {
      return None, false;
    }
    assert s[..BLOCK] == header.value && s[BLOCK..] == stream.rest;
    if header.value == ZEROS {
      var second := ReadExactly(stream, BLOCK);
      if second.Some? {
        assert s[BLOCK..][..BLOCK] == second.value;
        assert s[BLOCK..2 * BLOCK] == s[BLOCK..][..BLOCK];
      }
      if second.None? || second.value != ZEROS {
        return None, false;
      }
      return None, Inside(stage, "treeman") in seen && Inside(stage, "treemand") in seen;
    }
    var h := ParseHeader(header.value);
    if h.Bad? {
      return None, false;
    }
    if total + h.size + BLOCK > MAX_ARCHIVE || h.prefix != [] || h.name in seen {
      return None, false;
    }
    var q := Progress(seen + {h.name}, total + h.size + BLOCK, folder.files);
    if IsDirectory(stage, h) {
      return Some(q), false;
    }
    if !IsFile(stage, h) {
      return None, false;
    }
    var ok := Entry(stream, stage, folder, h, s);
    if !ok {
      return None, false;
    }
    return Some(q.(files := folder.files)), false;
  }

  /** The rest of a turn: the entry's contents and padding. */
  method Entry(stream: GzStream, stage: Bytes, folder: Folder, h: Header, ghost s: Bytes) returns (ok: bool)
    requires h.Head? && |s| >= BLOCK && stream.rest == s[BLOCK..]
    modifies stream, folder
    ensures forall q: Progress :: q.files == old(folder.files) ==>
              && (ok ==> Contents(s, stage, h, q) == More(stream.rest, q.(files := folder.files)))
              && (!ok && stream.reliable && folder.reliable ==> Contents(s, stage, h, q).Fail?)
  {
    var out := Output(stage, h.name);
    if out.Some? && h.size == 0 {
      return false;
    }
    ghost var before := folder.files;
    if out.Some? {
      var created := folder.Create(out.value);
      if !created {
        return false;
      }
    }
    var copied := CopyOut(stream, h.size, folder, out);
    if !copied {
      return false;
    }
    assert s[BLOCK..][..h.size] == s[BLOCK..BLOCK + h.size];
    assert out.Some? ==> folder.files == before[out.value := s[BLOCK..BLOCK + h.size]];
    assert s[BLOCK..][h.size..] == s[BLOCK + h.size..];
    var pad := ReadExactly(stream, Padding(h.size));
    if pad.None? {
      return false;
    }
    assert s[BLOCK + h.size..][Padding(h.size)..] == s[BLOCK + h.size + Padding(h.size)..];
    assert stream.rest == s[BLOCK + h.size + Padding(h.size)..];
    return true;
  }

  /** extract(): for every chunking of the reads the result is the one of reading
      the archive in one piece. */
  method Extract(stream: GzStream, stage: Bytes, folder: Folder) returns (ok: bool)
    modifies stream, folder
    ensures var r := Extracted(old(stream.rest), stage, Progress({}, 0, old(folder.files)));
            && (ok ==> r == Finish(folder.files))
            && (stream.reliable && folder.reliable ==> (ok <==> r.Finish?))
  {
    ghost var whole := Extracted(stream.rest, stage, Progress({}, 0, folder.files));
    var seen: set<Bytes>, total := {}, 0;
    while true
      invariant whole == Extracted(stream.rest, stage, Progress(seen, total, folder.files))
      decreases |stream.rest|
    {
      ghost var s, before := stream.rest, Progress(seen, total, folder.files);
      var p, finished := Turn(stream, stage, folder, seen, total);
      if p.None? {
        return finished;
      }
      NextConsumes(s, stage, before);
      seen, total := p.value.seen, p.value.total;
    }
  }
}
