/** The archive reader taken entry by entry (composer/Bootstrap.php): what it
    extracts is a list of entries it can read, and such a list is extracted. */
module TarFormat {
  import opened Prelude
  import opened TarReader

  // ------------------------------------------------------------- the layout

  /** One entry as it lies in the archive, with what its header says: its name
      and, for the binaries, the file it is extracted to. */
  datatype Item = Item(header: Bytes, content: Bytes, padding: Bytes, name: Bytes, out: Option<Bytes>)

  function Laid(it: Item): Bytes {
    it.header + it.content + it.padding
  }

  function Layout(items: seq<Item>): Bytes {
    if items == [] then [] else Laid(items[0]) + Layout(items[1..])
  }

  const END := ZEROS + ZEROS

  /** An entry the reader takes: its header parses and has the right size, and it is
      a stage directory or an allowlisted plain file. */
  ghost predicate Readable(stage: Bytes, it: Item) {
    && |it.header| == BLOCK && |it.padding| == Padding(|it.content|)
    && var h := ParseHeader(it.header);
       && h.Head? && h.prefix == [] && h.size == |it.content|
       && it.name == h.name && it.out == Output(stage, h.name)
       && (IsDirectory(stage, h) || (IsFile(stage, h) && (it.out.Some? ==> it.content != [])))
  }

  /** Headers plus sizes. */
  function Charged(items: seq<Item>): nat {
    if items == [] then 0 else BLOCK + |items[0].content| + Charged(items[1..])
  }

  ghost predicate AllReadable(stage: Bytes, items: seq<Item>) {
    items == [] || (Readable(stage, items[0]) && AllReadable(stage, items[1..]))
  }

  ghost predicate Named(items: seq<Item>, name: Bytes) {
    exists i :: 0 <= i < |items| && items[i].name == name
  }

  /** No name twice, none that was seen before. */
  ghost predicate DistinctNames(items: seq<Item>, seen: set<Bytes>) {
    && (forall i :: 0 <= i < |items| ==> items[i].name !in seen)
    && (forall i, j :: 0 <= i < j < |items| ==> items[i].name != items[j].name)
  }

  ghost predicate OutputsFree(items: seq<Item>, files: Files) {
    forall i :: 0 <= i < |items| && items[i].out.Some? ==> items[i].out.value !in files
  }

  ghost predicate HasBoth(stage: Bytes, items: seq<Item>, seen: set<Bytes>) {
    && (Inside(stage, "treeman") in seen || Named(items, Inside(stage, "treeman")))
    && (Inside(stage, "treemand") in seen || Named(items, Inside(stage, "treemand")))
  }

  /** The items can follow what was already extracted. */
  ghost predicate Acceptable(stage: Bytes, items: seq<Item>, p: Progress) {
    && AllReadable(stage, items) && DistinctNames(items, p.seen)
    && p.total + Charged(items) <= MAX_ARCHIVE
    && OutputsFree(items, p.files) && HasBoth(stage, items, p.seen)
  }

  /** The files after writing the binaries among the items. */
  function Written(items: seq<Item>, files: Files): Files {
    if items == [] then files
    else Written(items[1..], if items[0].out.Some? then files[items[0].out.value := items[0].content] else files)
  }

  // --------------------------------------------------------------- one item

  function AfterItem(it: Item, p: Progress): Progress {
    Progress(p.seen + {it.name}, p.total + |it.content| + BLOCK,
             if it.out.Some? then p.files[it.out.value := it.content] else p.files)
  }

  lemma BinaryNames(stage: Bytes)
    ensures Inside(stage, "treeman") != Inside(stage, "treemand")
    ensures Inside(stage, "treeman") != stage && Inside(stage, "treeman") != stage + Ascii("/")
    ensures Inside(stage, "treemand") != stage && Inside(stage, "treemand") != stage + Ascii("/")
    ensures TREEMAN != TREEMAND
  {
    assert |Inside(stage, "treeman")| == |stage| + 8 && |Inside(stage, "treemand")| == |stage| + 9;
    assert |TREEMAN| == 7 && |TREEMAND| == 8;
  }

  lemma TrimZeros(n: nat)
    ensures TrimBlanksLeft(Repeat(NUL, n)) == []
  {
    if n > 0 {
      assert Repeat(NUL, n)[1..] == Repeat(NUL, n - 1);
      TrimZeros(n - 1);
    }
  }

  /** A zero block is never a valid header. */
  lemma ZerosAreNoHeader()
    ensures ParseHeader(ZEROS).Bad?
  {
    TrimZeros(8);
    assert Field(ZEROS, 148, 8) == Repeat(NUL, 8);
  }

  /** The reader takes a readable item in one turn. */
  lemma ItemIsRead(stage: Bytes, it: Item, rest: Bytes, p: Progress)
    requires Readable(stage, it) && it.name !in p.seen
    requires p.total + |it.content| + BLOCK <= MAX_ARCHIVE
    requires it.out.Some? ==> it.out.value !in p.files
    ensures Next(Laid(it) + rest, stage, p) == More(rest, AfterItem(it, p))
  {
    var s := Laid(it) + rest;
    var h := ParseHeader(it.header);
    var size := |it.content|;
    assert s[..BLOCK] == it.header;
    ZerosAreNoHeader();
    assert s[BLOCK..BLOCK + size] == it.content;
    assert s[BLOCK + size + Padding(size)..] == rest;
    BinaryNames(stage);
    if IsDirectory(stage, h) {
      assert it.content == [] && it.padding == [];
      assert Output(stage, h.name) == None;
    }
  }

  lemma Pieces(s: Bytes, a: nat, b: nat, c: nat)
    requires a <= b <= c <= |s|
    ensures s == s[..a] + s[a..b] + s[b..c] + s[c..]
  {
  }

  lemma DirectoryIsItem(s: Bytes, stage: Bytes, h: Header, it: Item)
    requires |s| >= BLOCK && h == ParseHeader(s[..BLOCK]) && h.Head? && h.prefix == [] && IsDirectory(stage, h)
    requires it == Item(s[..BLOCK], [], [], h.name, None)
    ensures Readable(stage, it) && s == Laid(it) + s[BLOCK..]
  {
    BinaryNames(stage);
    assert Padding(0) == 0;
    Pieces(s, BLOCK, BLOCK, BLOCK);
  }

  lemma FileIsItem(s: Bytes, stage: Bytes, h: Header, q: Progress) returns (it: Item)
    requires |s| >= BLOCK && h == ParseHeader(s[..BLOCK]) && h.Head? && h.prefix == [] && IsFile(stage, h)
    requires Contents(s, stage, h, q).More?
    ensures it.name == h.name && |it.content| == h.size && Readable(stage, it)
    ensures it.out.Some? ==> it.out.value !in q.files
    ensures s == Laid(it) + Contents(s, stage, h, q).rest
    ensures Contents(s, stage, h, q).next ==
            q.(files := if it.out.Some? then q.files[it.out.value := it.content] else q.files)
  {
    var size := h.size;
    var end := BLOCK + size + Padding(size);
    it := Item(s[..BLOCK], s[BLOCK..BLOCK + size], s[BLOCK + size..end], h.name, Output(stage, h.name));
    Pieces(s, BLOCK, BLOCK + size, end);
  }

  /** Conversely a turn that goes on took a readable item off the stream. */
  lemma ReadIsItem(s: Bytes, stage: Bytes, p: Progress) returns (it: Item)
    requires Next(s, stage, p).More?
    ensures Readable(stage, it) && it.name !in p.seen
    ensures p.total + |it.content| + BLOCK <= MAX_ARCHIVE
    ensures it.out.Some? ==> it.out.value !in p.files
    ensures s == Laid(it) + Next(s, stage, p).rest
    ensures Next(s, stage, p).next == AfterItem(it, p)
  {
    var h := ParseHeader(s[..BLOCK]);
    if IsDirectory(stage, h) {
      it := Item(s[..BLOCK], [], [], h.name, None);
      DirectoryIsItem(s, stage, h, it);
    } else {
      it := FileIsItem(s, stage, h, p.(seen := p.seen + {h.name}, total := p.total + h.size + BLOCK));
    }
  }

  // ------------------------------------------------------------ whole archives

  lemma EndIsRead(tail: Bytes, stage: Bytes, p: Progress)
    ensures Next(END + tail, stage, p) ==
            if Inside(stage, "treeman") in p.seen && Inside(stage, "treemand") in p.seen
            then Finish(p.files) else Fail(MissingBinary)
  {
    var s := END + tail;
    assert s[..BLOCK] == ZEROS && s[BLOCK..2 * BLOCK] == ZEROS;
  }

  lemma OutputNames(stage: Bytes, a: Item, b: Item)
    requires Readable(stage, a) && Readable(stage, b) && a.name != b.name && a.out.Some?
    ensures a.out != b.out
  {
    BinaryNames(stage);
  }

  lemma {:induction false} ReadableAt(stage: Bytes, items: seq<Item>, i: nat)
    requires AllReadable(stage, items) && i < |items|
    ensures Readable(stage, items[i])
  {
    if i > 0 {
      ReadableAt(stage, items[1..], i - 1);
    }
  }

  lemma NamedTail(items: seq<Item>, name: Bytes)
    requires items != []
    ensures Named(items, name) <==> items[0].name == name || Named(items[1..], name)
  {
    if i :| 0 <= i < |items| && items[i].name == name {
      assert i > 0 ==> items[1..][i - 1] == items[i];
    }
    if i :| 0 <= i < |items[1..]| && items[1..][i].name == name {
      assert items[i + 1] == items[1..][i];
    }
  }

  /** What follows an item can follow it exactly when the whole can. */
  lemma DistinctTail(items: seq<Item>, seen: set<Bytes>)
    requires items != []
    ensures DistinctNames(items, seen) <==>
            items[0].name !in seen && DistinctNames(items[1..], seen + {items[0].name})
  {
    var rest := items[1..];
    assert forall i :: 0 <= i < |rest| ==> rest[i] == items[i + 1];
    if DistinctNames(rest, seen + {items[0].name}) && items[0].name !in seen {
      forall i | 0 <= i < |items| ensures items[i].name !in seen {
        assert i > 0 ==> items[i] == rest[i - 1];
      }
      forall i, j | 0 <= i < j < |items| ensures items[i].name != items[j].name {
        assert items[j] == rest[j - 1];
        assert i > 0 ==> items[i] == rest[i - 1];
      }
    }
  }

  lemma OutputsTail(stage: Bytes, items: seq<Item>, p: Progress)
    requires items != [] && AllReadable(stage, items) && DistinctNames(items, p.seen)
    ensures OutputsFree(items, p.files) <==>
            && (items[0].out.Some? ==> items[0].out.value !in p.files)
            && OutputsFree(items[1..], AfterItem(items[0], p).files)
  {
    var rest := items[1..];
    assert forall i :: 0 <= i < |rest| ==> rest[i] == items[i + 1];
    forall i | 1 <= i < |items| && items[0].out.Some? ensures items[i].out != items[0].out {
      ReadableAt(stage, items, i);
      OutputNames(stage, items[0], items[i]);
    }
    forall i | 1 <= i < |items| ensures items[i] == rest[i - 1] {
    }
  }

  lemma HasBothTail(stage: Bytes, items: seq<Item>, seen: set<Bytes>)
    requires items != []
    ensures HasBoth(stage, items, seen) <==> HasBoth(stage, items[1..], seen + {items[0].name})
  {
    NamedTail(items, Inside(stage, "treeman"));
    NamedTail(items, Inside(stage, "treemand"));
  }

  lemma AcceptableTail(stage: Bytes, items: seq<Item>, p: Progress)
    requires items != []
    ensures Acceptable(stage, items, p) <==>
            && Readable(stage, items[0]) && items[0].name !in p.seen
            && (items[0].out.Some? ==> items[0].out.value !in p.files)
            && Acceptable(stage, items[1..], AfterItem(items[0], p))
  {
    DistinctTail(items, p.seen);
    HasBothTail(stage, items, p.seen);
    if AllReadable(stage, items) && DistinctNames(items, p.seen) {
      OutputsTail(stage, items, p);
    }
  }

  lemma {:induction false} AcceptsItems(stage: Bytes, items: seq<Item>, tail: Bytes, p: Progress)
    requires Acceptable(stage, items, p)
    ensures Extracted(Layout(items) + END + tail, stage, p) == Finish(Written(items, p.files))
    decreases |items|
  {
    if items == [] {
      assert Layout(items) + END + tail == END + tail;
      EndIsRead(tail, stage, p);
    } else {
      var rest := Layout(items[1..]) + END + tail;
      assert Layout(items) + END + tail == Laid(items[0]) + rest;
      AcceptableTail(stage, items, p);
      ItemIsRead(stage, items[0], rest, p);
      AcceptsItems(stage, items[1..], tail, AfterItem(items[0], p));
    }
  }

  lemma ItemsGrow(stage: Bytes, it: Item, more: seq<Item>, tail: Bytes, p: Progress)
    requires Readable(stage, it) && it.name !in p.seen
    requires it.out.Some? ==> it.out.value !in p.files
    requires Acceptable(stage, more, AfterItem(it, p))
    ensures Acceptable(stage, [it] + more, p)
    ensures Laid(it) + (Layout(more) + END + tail) == Layout([it] + more) + END + tail
    ensures Written([it] + more, p.files) == Written(more, AfterItem(it, p).files)
  {
    var items := [it] + more;
    assert items[1..] == more;
    AcceptableTail(stage, items, p);
  }

  lemma FinishIsEnd(s: Bytes, stage: Bytes, p: Progress)
    requires Next(s, stage, p).Finish? && p.total <= MAX_ARCHIVE
    ensures 2 * BLOCK <= |s| && s == Layout([]) + END + s[2 * BLOCK..]
    ensures Acceptable(stage, [], p) && Next(s, stage, p).files == p.files
  {
    Pieces(s, 0, BLOCK, 2 * BLOCK);
  }

  /** Unfolds one turn of the loop. */
  lemma ExtractedTurn(s: Bytes, stage: Bytes, p: Progress)
    ensures var step := Next(s, stage, p);
            if step.More? then Extracted(s, stage, p) == Extracted(step.rest, stage, step.next) && |step.rest| < |s|
            else Extracted(s, stage, p) == step
  {
    if Next(s, stage, p).More? {
      NextConsumes(s, stage, p);
    }
  }

  lemma {:induction false} FinishHasItems(s: Bytes, stage: Bytes, p: Progress)
    returns (items: seq<Item>, tail: Bytes)
    requires Extracted(s, stage, p).Finish? && p.total <= MAX_ARCHIVE
    ensures s == Layout(items) + END + tail && Acceptable(stage, items, p)
    ensures Extracted(s, stage, p) == Finish(Written(items, p.files))
    decreases |s|
  {
    var step := Next(s, stage, p);
    ExtractedTurn(s, stage, p);
    if step.More? {
      var it := ReadIsItem(s, stage, p);
      var more;
      more, tail := FinishHasItems(step.rest, stage, step.next);
      items := [it] + more;
      ItemsGrow(stage, it, more, tail, p);
    } else {
      items, tail := [], s[2 * BLOCK..];
      FinishIsEnd(s, stage, p);
    }
  }

  lemma {:induction false} WrittenOther(items: seq<Item>, files: Files, out: Bytes)
    requires forall i :: 0 <= i < |items| ==> items[i].out != Some(out)
    ensures (out in Written(items, files) <==> out in files)
    ensures out in files ==> Written(items, files)[out] == files[out]
  {
    if items != [] {
      assert forall i :: 0 <= i < |items[1..]| ==> items[1..][i] == items[i + 1];
      WrittenOther(items[1..], if items[0].out.Some? then files[items[0].out.value := items[0].content] else files, out);
    }
  }

  /** What `Written` means: a binary's file holds its entry's bytes. */
  lemma {:induction false} WrittenHolds(items: seq<Item>, files: Files, k: nat)
    requires k < |items| && items[k].out.Some?
    requires forall i :: 0 <= i < |items| && i != k ==> items[i].out != items[k].out
    ensures items[k].out.value in Written(items, files)
    ensures Written(items, files)[items[k].out.value] == items[k].content
  {
    assert forall i :: 0 <= i < |items[1..]| ==> items[1..][i] == items[i + 1];
    var after := if items[0].out.Some? then files[items[0].out.value := items[0].content] else files;
    if k == 0 {
      WrittenOther(items[1..], after, items[k].out.value);
    } else {
      WrittenHolds(items[1..], after, k - 1);
    }
  }

  /** The item called `name`, which is extracted to `out`, is the only one of
      either kind. */
  lemma OnlyOne(stage: Bytes, items: seq<Item>, name: Bytes, out: Bytes) returns (k: nat)
    requires AllReadable(stage, items) && DistinctNames(items, {}) && Named(items, name)
    requires Output(stage, name) == Some(out)
    ensures k < |items| && items[k].name == name && items[k].out == Some(out)
    ensures forall i :: 0 <= i < |items| && i != k ==> items[i].name != name && items[i].out != Some(out)
  {
    k :| 0 <= k < |items| && items[k].name == name;
    ReadableAt(stage, items, k);
    forall i | 0 <= i < |items| && i != k ensures items[i].name != name && items[i].out != Some(out) {
      ReadableAt(stage, items, i);
      assert items[i].name != items[k].name;
      OutputNames(stage, items[k], items[i]);
    }
  }

  /** `k` is the only item called `name`, and `result` holds its bytes in `out`. */
  ghost predicate HoldsEntry(items: seq<Item>, k: nat, name: Bytes, result: Files, out: Bytes) {
    && k < |items| && (forall i :: 0 <= i < |items| ==> (items[i].name == name <==> i == k))
    && out in result && result[out] == items[k].content
  }

  lemma EntryIsHeld(stage: Bytes, items: seq<Item>, files: Files, name: Bytes, out: Bytes) returns (k: nat)
    requires AllReadable(stage, items) && DistinctNames(items, {}) && Named(items, name)
    requires Output(stage, name) == Some(out)
    ensures HoldsEntry(items, k, name, Written(items, files), out)
  {
    k := OnlyOne(stage, items, name, out);
    WrittenHolds(items, files, k);
  }

  ghost predicate SameElsewhere(files: Files, result: Files) {
    forall f :: f != TREEMAN && f != TREEMAND ==>
      (f in result <==> f in files) && (f in files ==> result[f] == files[f])
  }

  lemma BinariesAreHeld(stage: Bytes, items: seq<Item>, files: Files) returns (a: nat, b: nat)
    requires AllReadable(stage, items) && DistinctNames(items, {}) && HasBoth(stage, items, {})
    ensures HoldsEntry(items, a, Inside(stage, "treeman"), Written(items, files), TREEMAN)
    ensures HoldsEntry(items, b, Inside(stage, "treemand"), Written(items, files), TREEMAND)
  {
    OutputOfBinaries(stage);
    a := EntryIsHeld(stage, items, files, Inside(stage, "treeman"), TREEMAN);
    b := EntryIsHeld(stage, items, files, Inside(stage, "treemand"), TREEMAND);
  }

  lemma OutputOfBinaries(stage: Bytes)
    ensures Output(stage, Inside(stage, "treeman")) == Some(TREEMAN)
    ensures Output(stage, Inside(stage, "treemand")) == Some(TREEMAND)
  {
    BinaryNames(stage);
  }

  lemma OthersUntouched(stage: Bytes, items: seq<Item>, files: Files, f: Bytes)
    requires AllReadable(stage, items) && f != TREEMAN && f != TREEMAND
    ensures (f in Written(items, files) <==> f in files)
    ensures f in files ==> Written(items, files)[f] == files[f]
  {
    forall i | 0 <= i < |items| ensures items[i].out != Some(f) {
      ReadableAt(stage, items, i);
    }
    WrittenOther(items, files, f);
  }

  lemma ElsewhereUntouched(stage: Bytes, items: seq<Item>, files: Files)
    requires AllReadable(stage, items)
    ensures SameElsewhere(files, Written(items, files))
  {
    forall f | f != TREEMAN && f != TREEMAND
      ensures (f in Written(items, files) <==> f in files)
      ensures f in files ==> Written(items, files)[f] == files[f]
    {
      OthersUntouched(stage, items, files, f);
    }
  }

  /** With the binaries at `a` and `b`, the files gain exactly their bytes. */
  lemma FilesGain(stage: Bytes, items: seq<Item>, a: nat, b: nat, files: Files)
    requires AllReadable(stage, items) && DistinctNames(items, {})
    requires a < |items| && items[a].name == Inside(stage, "treeman")
    requires b < |items| && items[b].name == Inside(stage, "treemand")
    ensures Written(items, files) == files[TREEMAN := items[a].content][TREEMAND := items[b].content]
  {
    var written := Written(items, files);
    OutputOfBinaries(stage);
    var k := EntryIsHeld(stage, items, files, Inside(stage, "treeman"), TREEMAN);
    var l := EntryIsHeld(stage, items, files, Inside(stage, "treemand"), TREEMAND);
    assert k == a && l == b;
    ElsewhereUntouched(stage, items, files);
    MapOfTwo(files, written, items[a].content, items[b].content);
  }

  lemma MapOfTwo(files: Files, written: Files, a: Bytes, b: Bytes)
    requires SameElsewhere(files, written)
    requires TREEMAN in written && written[TREEMAN] == a && TREEMAND in written && written[TREEMAND] == b
    ensures written == files[TREEMAN := a][TREEMAND := b]
  {
    assert |TREEMAN| == 7 && |TREEMAND| == 8;
  }
}
