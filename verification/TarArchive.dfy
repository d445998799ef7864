/** Exactly which streams the archive reader accepts, said of their bytes
    (composer/Bootstrap.php): entries of the ustar Interchange Format (pax utility,
    POSIX.1-2017) with the release's names, and two blocks of zeros. */
module TarArchive {
  import opened Prelude
  import opened TarReader
  import opened TarHeaders
  import opened TarFormat

  ghost predicate AllZero(s: Bytes) {
    forall i :: 0 <= i < |s| ==> s[i] == 0
  }

  /** stage/name */
  function Under(stage: Bytes, name: string): Bytes {
    stage + Ascii("/" + name)
  }

  ghost predicate Allowlisted(stage: Bytes, name: Bytes) {
    || name == Under(stage, "treeman") || name == Under(stage, "treemand") || name == Under(stage, "README.md")
    || name == Under(stage, "LICENSE-MIT") || name == Under(stage, "LICENSE-APACHE")
  }

  ghost predicate IsBinary(stage: Bytes, name: Bytes) {
    name == Under(stage, "treeman") || name == Under(stage, "treemand")
  }

  ghost function FileOf(stage: Bytes, name: Bytes): Option<Bytes> {
    if name == Under(stage, "treeman") then Some(Ascii("treeman"))
    else if name == Under(stage, "treemand") then Some(Ascii("treemand"))
    else None
  }

  /** An entry the release archive may hold: a header block with a right checksum
      that gives its name, without prefix, and its size; its contents, padded to a
      whole block; and it is the stage directory, empty, or an allowlisted plain file
      that is no link, the binaries not empty. */
  ghost predicate Permitted(stage: Bytes, it: Item) {
    && |it.header| == 512 && |it.padding| < 512 && (|it.content| + |it.padding|) % 512 == 0
    && it.out == FileOf(stage, it.name)
    && var h, kind := it.header, it.header[156];
       && GoodChecksum(h) && OctalField(h[124..136], |it.content|)
       && NulPadded(h[0..100], it.name) && AllZero(h[345..500])
       && (|| ((it.name == stage || it.name == stage + Ascii("/")) && kind == 53 && it.content == [])
           || (Allowlisted(stage, it.name) && (kind == 0 || kind == 48) && AllZero(h[157..257])
               && (IsBinary(stage, it.name) ==> it.content != [])))
  }

  lemma InsideIs(stage: Bytes, name: string)
    ensures Inside(stage, name) == Under(stage, name)
  {
    assert Ascii("/") + Ascii(name) == Ascii("/" + name);
    assert stage + Ascii("/") + Ascii(name) == stage + (Ascii("/") + Ascii(name));
  }

  lemma NamesAre(stage: Bytes, name: Bytes)
    ensures Allowed(stage, name) <==> Allowlisted(stage, name)
    ensures Output(stage, name) == FileOf(stage, name)
    ensures IsBinary(stage, name) <==> FileOf(stage, name).Some?
  {
    InsideIs(stage, "treeman");
    InsideIs(stage, "treemand");
    InsideIs(stage, "README.md");
    InsideIs(stage, "LICENSE-MIT");
    InsideIs(stage, "LICENSE-APACHE");
  }

  lemma PaddingIs(size: nat, n: nat)
    ensures n == Padding(size) <==> n < 512 && (size + n) % 512 == 0
  {
  }

  /** The header's part, with whatever link the bytes hold. */
  lemma HeaderIs(h: Bytes, name: Bytes, size: nat)
    requires |h| == 512
    ensures ParseHeader(h) == Head(name, [], h[156], size, TrimNuls(h[157..257])) <==>
            && GoodChecksum(h) && OctalField(h[124..136], size)
            && NulPadded(h[0..100], name) && AllZero(h[345..500])
    ensures TrimNuls(h[157..257]) == [] <==> AllZero(h[157..257])
    ensures ParseHeader(h).Head? ==> ParseHeader(h).kind == h[156] && ParseHeader(h).link == TrimNuls(h[157..257])
  {
    TrimNulsExactly(h[157..257], []);
    TrimNulsPadded(h[157..257]);
    HeaderSaysExactly(h, name, [], h[156], size, TrimNuls(h[157..257]));
    FieldsAre(h);
  }

  lemma PermittedExactly(stage: Bytes, it: Item)
    ensures Readable(stage, it) <==> Permitted(stage, it)
  {
    if |it.header| == 512 {
      HeaderIs(it.header, it.name, |it.content|);
      NamesAre(stage, it.name);
      PaddingIs(|it.content|, |it.padding|);
    }
  }

  ghost predicate EachPermitted(stage: Bytes, items: seq<Item>) {
    forall i {:trigger Permitted(stage, items[i])} :: 0 <= i < |items| ==> Permitted(stage, items[i])
  }

  lemma {:induction false} AllPermitted(stage: Bytes, items: seq<Item>)
    ensures AllReadable(stage, items) <==> EachPermitted(stage, items)
  {
    if items != [] {
      AllPermitted(stage, items[1..]);
      PermittedExactly(stage, items[0]);
      EachTail(stage, items);
    }
  }

  lemma EachTail(stage: Bytes, items: seq<Item>)
    requires items != []
    ensures EachPermitted(stage, items) <==> Permitted(stage, items[0]) && EachPermitted(stage, items[1..])
  {
    var rest := items[1..];
    forall i {:trigger Permitted(stage, rest[i])} | 0 <= i < |rest| ensures rest[i] == items[i + 1] {
    }
    if Permitted(stage, items[0]) && EachPermitted(stage, rest) {
      forall i | 0 <= i < |items| ensures Permitted(stage, items[i]) {
        assert i > 0 ==> Permitted(stage, rest[i - 1]) && items[i] == rest[i - 1];
      }
    }
    if EachPermitted(stage, items) {
      forall i | 0 <= i < |rest| ensures Permitted(stage, rest[i]) {
        assert Permitted(stage, items[i + 1]);
      }
    }
  }

  lemma PermittedOut(stage: Bytes, it: Item)
    requires Permitted(stage, it) && it.out.Some?
    ensures it.out.value == TREEMAN || it.out.value == TREEMAND
  {
  }

  // ---------------------------------------------------------------- whole archives

  /** From the start of `s`: permitted entries with distinct names, the binaries
      among them at `a` and `b`, headers and contents together at most 256 MiB, and
      then two blocks of zeros. */
  ghost predicate Archive(s: Bytes, stage: Bytes, items: seq<Item>, a: nat, b: nat) {
    && EachPermitted(stage, items)
    && (forall i, j :: 0 <= i < j < |items| ==> items[i].name != items[j].name)
    && a < |items| && items[a].name == Under(stage, "treeman")
    && b < |items| && items[b].name == Under(stage, "treemand")
    && Charged(items) <= 268435456
    && Layout(items) <= s
    && var n := |Layout(items)|; n + 1024 <= |s| && AllZero(s[n..n + 1024])
  }

  lemma EndIsZeros(t: Bytes)
    requires |t| == 1024
    ensures t == END <==> AllZero(t)
  {
    assert |END| == 1024 && AllZero(END);
    if AllZero(t) {
      assert t == END;
    }
  }

  lemma EndSplits(s: Bytes, front: Bytes) returns (tail: Bytes)
    requires front <= s && |front| + 1024 <= |s| && AllZero(s[|front|..|front| + 1024])
    ensures s == front + END + tail
  {
    EndIsZeros(s[|front|..|front| + 1024]);
    tail := s[|front| + 1024..];
  }

  lemma ArchiveIsAcceptable(s: Bytes, stage: Bytes, items: seq<Item>, a: nat, b: nat, files: Files)
    requires Archive(s, stage, items, a, b) && TREEMAN !in files && TREEMAND !in files
    ensures Acceptable(stage, items, Progress({}, 0, files))
  {
    AllPermitted(stage, items);
    InsideIs(stage, "treeman");
    InsideIs(stage, "treemand");
    forall i | 0 <= i < |items| && items[i].out.Some? ensures items[i].out.value !in files {
      PermittedOut(stage, items[i]);
    }
    assert Named(items, items[a].name) && Named(items, items[b].name);
  }

  lemma ArchiveIsExtracted(s: Bytes, stage: Bytes, items: seq<Item>, a: nat, b: nat, files: Files)
    requires Archive(s, stage, items, a, b) && TREEMAN !in files && TREEMAND !in files
    ensures Extracted(s, stage, Progress({}, 0, files))
         == Finish(files[TREEMAN := items[a].content][TREEMAND := items[b].content])
  {
    ArchiveIsAcceptable(s, stage, items, a, b, files);
    InsideIs(stage, "treeman");
    InsideIs(stage, "treemand");
    var tail := EndSplits(s, Layout(items));
    AcceptsItems(stage, items, tail, Progress({}, 0, files));
    FilesGain(stage, items, a, b, files);
  }

  lemma BothAreFree(stage: Bytes, items: seq<Item>, a: nat, b: nat, files: Files)
    requires AllReadable(stage, items) && OutputsFree(items, files)
    requires a < |items| && items[a].name == Inside(stage, "treeman")
    requires b < |items| && items[b].name == Inside(stage, "treemand")
    ensures TREEMAN !in files && TREEMAND !in files
  {
    ReadableAt(stage, items, a);
    ReadableAt(stage, items, b);
    OutputOfBinaries(stage);
  }

  lemma AcceptableIsArchive(s: Bytes, stage: Bytes, items: seq<Item>, tail: Bytes, files: Files)
    returns (a: nat, b: nat)
    requires s == Layout(items) + END + tail && Acceptable(stage, items, Progress({}, 0, files))
    ensures Archive(s, stage, items, a, b) && TREEMAN !in files && TREEMAND !in files
    ensures Written(items, files) == files[TREEMAN := items[a].content][TREEMAND := items[b].content]
  {
    a :| 0 <= a < |items| && items[a].name == Inside(stage, "treeman");
    b :| 0 <= b < |items| && items[b].name == Inside(stage, "treemand");
    AllPermitted(stage, items);
    InsideIs(stage, "treeman");
    InsideIs(stage, "treemand");
    EndFollows(s, Layout(items), tail);
    BothAreFree(stage, items, a, b, files);
    FilesGain(stage, items, a, b, files);
  }

  lemma EndFollows(s: Bytes, front: Bytes, tail: Bytes)
    requires s == front + END + tail
    ensures front <= s && |front| + 1024 <= |s| && AllZero(s[|front|..|front| + 1024])
  {
    assert s[|front|..|front| + 1024] == END;
    EndIsZeros(END);
  }

  /** `result` is `files` with the two binaries of such an archive. */
  ghost predicate Unpacked(s: Bytes, stage: Bytes, items: seq<Item>, a: nat, b: nat, files: Files, result: Files) {
    && Archive(s, stage, items, a, b)
    && result == files[Ascii("treeman") := items[a].content][Ascii("treemand") := items[b].content]
  }

  /** The reader returns normally exactly on such archives, into a directory that
      has neither binary yet, and then the files gain exactly the binaries' bytes. */
  lemma AcceptsExactly(s: Bytes, stage: Bytes, files: Files, result: Files)
    ensures Extracted(s, stage, Progress({}, 0, files)) == Finish(result) <==>
            && Ascii("treeman") !in files && Ascii("treemand") !in files
            && exists items: seq<Item>, a: nat, b: nat :: Unpacked(s, stage, items, a, b, files, result)
  {
    var p := Progress({}, 0, files);
    if Extracted(s, stage, p) == Finish(result) {
      var items, tail := FinishHasItems(s, stage, p);
      var a, b := AcceptableIsArchive(s, stage, items, tail, files);
      assert Unpacked(s, stage, items, a, b, files, result);
    }
    if TREEMAN !in files && TREEMAND !in files {
      forall items: seq<Item>, a: nat, b: nat | Unpacked(s, stage, items, a, b, files, result)
        ensures Extracted(s, stage, p) == Finish(result)
      {
        ArchiveIsExtracted(s, stage, items, a, b, files);
      }
    }
  }

  /** A normal return, spelled out: both binaries are entries of such an archive,
      each exactly once, and their files hold exactly those entries' bytes; no other
      file changed. */
  lemma NormalReturnMeans(s: Bytes, stage: Bytes, files: Files)
    returns (items: seq<Item>, a: nat, b: nat)
    requires Extracted(s, stage, Progress({}, 0, files)).Finish?
    ensures Archive(s, stage, items, a, b)
    ensures var result := Extracted(s, stage, Progress({}, 0, files)).files;
            && HoldsEntry(items, a, Under(stage, "treeman"), result, TREEMAN)
            && HoldsEntry(items, b, Under(stage, "treemand"), result, TREEMAND)
            && SameElsewhere(files, result)
  {
    var tail;
    items, tail := FinishHasItems(s, stage, Progress({}, 0, files));
    a, b := AcceptableIsArchive(s, stage, items, tail, files);
    InsideIs(stage, "treeman");
    InsideIs(stage, "treemand");
    var k, l := BinariesAreHeld(stage, items, files);
    ElsewhereUntouched(stage, items, files);
  }

  /** A header that is no valid one where an entry starts makes the reader fail: a
      wrong checksum is never extracted. */
  lemma CorruptHeaderFails(s: Bytes, stage: Bytes, p: Progress)
    requires |s| >= 512 && !AllZero(s[..512]) && !GoodChecksum(s[..512])
    ensures Extracted(s, stage, p).Fail?
  {
    HeaderReadExactly(s[..512]);
    assert AllZero(ZEROS);
  }
}
