/** A ustar writer, and that the archive reader reads back what it writes
    (composer/Bootstrap.php). */
module TarWriter {
  import opened Prelude
  import opened TarReader
  import opened TarFormat
  import opened TarHeaders

  // ------------------------------------------------------------- octal fields

  /** `n` in octal, padded with zeros to `w` digits. */
  function OctalDigits(n: nat, w: nat): (s: Bytes)
    ensures |s| == w && forall i :: 0 <= i < w ==> OctalDigit(s[i])
    decreases w
  {
    if w == 0 then [] else OctalDigits(n / 8, w - 1) + [(48 + n % 8) as Byte]
  }

  lemma {:induction false} DigitsReadBack(n: nat, w: nat)
    requires n < Pow8(w)
    ensures OctalValue(OctalDigits(n, w)) == n
    decreases w
  {
    if w > 0 {
      DigitsReadBack(n / 8, w - 1);
      var s := OctalDigits(n, w);
      assert s[..|s| - 1] == OctalDigits(n / 8, w - 1);
    }
  }

  /** Octal digits followed by blanks read back. */
  lemma FieldReadsBack(n: nat, w: nat, blanks: Bytes)
    requires n < Pow8(w) && w > 0 && forall i :: 0 <= i < |blanks| ==> Blank(blanks[i])
    ensures Octal(OctalDigits(n, w) + blanks) == Some(n)
  {
    var s := OctalDigits(n, w);
    assert OctalDigit(s[0]) && OctalDigit(s[w - 1]);
    assert (s + blanks)[0] == s[0];
    TrimRightOver(s, blanks);
    DigitsReadBack(n, w);
  }

  lemma {:induction false} ByteSumBound(s: Bytes)
    ensures ByteSum(s) <= 255 * |s|
  {
    if s != [] {
      ByteSumBound(s[..|s| - 1]);
    }
  }

  // ------------------------------------------------------------------ headers

  /** An archive member; the fields the reader ignores may hold anything. */
  datatype Member = Member(
    name: Bytes, kind: Byte, content: Bytes,
    meta: Bytes,      // mode, uid, gid
    mtime: Bytes,
    owner: Bytes,     // magic, version, uname, gname, devmajor, devminor
    spare: Bytes)

  predicate Shaped(m: Member) {
    && |m.name| <= 100 && (m.name != [] ==> m.name[|m.name| - 1] != NUL)
    && |m.content| < Pow8(11)
    && |m.meta| == 24 && |m.mtime| == 12 && |m.owner| == 88 && |m.spare| == 12
  }

  function NameField(m: Member): Bytes
    requires Shaped(m)
  {
    m.name + Repeat(NUL, 100 - |m.name|)
  }

  function BeforeSum(m: Member): Bytes
    requires Shaped(m)
  {
    NameField(m) + m.meta + (OctalDigits(|m.content|, 11) + [NUL]) + m.mtime
  }

  function AfterSum(m: Member): Bytes
    requires Shaped(m)
  {
    [m.kind] + Repeat(NUL, 100) + m.owner + Repeat(NUL, 155) + m.spare
  }

  function CheckSum(m: Member): nat
    requires Shaped(m)
  {
    ByteSum(BeforeSum(m) + Repeat(SPACE, 8) + AfterSum(m))
  }

  function HeaderOf(m: Member): Bytes
    requires Shaped(m)
  {
    BeforeSum(m) + (OctalDigits(CheckSum(m), 6) + [NUL, SPACE]) + AfterSum(m)
  }

  lemma TrimmedNuls(s: Bytes, n: nat)
    requires s == [] || s[|s| - 1] != NUL
    ensures TrimNuls(s + Repeat(NUL, n)) == s
  {
    TrimNulsExactly(s + Repeat(NUL, n), s);
  }

  lemma HeaderFields(m: Member)
    requires Shaped(m)
    ensures var h := HeaderOf(m);
            && |h| == BLOCK
            && Field(h, 0, 100) == NameField(m)
            && Field(h, 124, 12) == OctalDigits(|m.content|, 11) + [NUL]
            && Field(h, 148, 8) == OctalDigits(CheckSum(m), 6) + [NUL, SPACE]
            && h[156] == m.kind
            && Field(h, 157, 100) == Repeat(NUL, 100)
            && Field(h, 345, 155) == Repeat(NUL, 155)
            && Blanked(h) == BeforeSum(m) + Repeat(SPACE, 8) + AfterSum(m)
  {
    var h, before, after := HeaderOf(m), BeforeSum(m), AfterSum(m);
    assert |before| == 148 && |after| == 356;
    assert h[..148] == before && h[156..] == after;
    assert Field(h, 0, 100) == before[..100];
    assert Field(h, 124, 12) == before[124..136];
    assert Field(h, 157, 100) == after[1..101];
    assert Field(h, 345, 155) == after[189..344];
  }

  lemma SumFits(m: Member)
    requires Shaped(m)
    ensures CheckSum(m) < Pow8(6)
  {
    var s := BeforeSum(m) + Repeat(SPACE, 8) + AfterSum(m);
    HeaderFields(m);
    assert |s| == BLOCK;
    ByteSumBound(s);
    assert Pow8(6) == 262144 by {
      assert Pow8(2) == 64 && Pow8(4) == 4096;
    }
  }

  /** The reader reads a written header back. */
  lemma HeaderReadsBack(m: Member)
    requires Shaped(m)
    ensures |HeaderOf(m)| == BLOCK
    ensures ParseHeader(HeaderOf(m)) == Head(m.name, [], m.kind, |m.content|, [])
  {
    HeaderFields(m);
    SumFits(m);
    FieldReadsBack(CheckSum(m), 6, [NUL, SPACE]);
    FieldReadsBack(|m.content|, 11, [NUL]);
    TrimmedNuls(m.name, 100 - |m.name|);
    TrimmedNuls([], 100);
    TrimmedNuls([], 155);
    assert [] + Repeat(NUL, 100) == Repeat(NUL, 100) && [] + Repeat(NUL, 155) == Repeat(NUL, 155);
  }

  // ----------------------------------------------------------------- archives

  /** What a release archive is built from: the stage directory and plain
      allowlisted files, the binaries not empty. */
  predicate Releasable(stage: Bytes, m: Member) {
    && Shaped(m)
    && (((m.name == stage || m.name == stage + Ascii("/")) && m.kind == 53 && m.content == [])
        || (Allowed(stage, m.name) && (m.kind == 0 || m.kind == 48)
            && (Output(stage, m.name).Some? ==> m.content != [])))
  }

  ghost predicate AllReleasable(stage: Bytes, ms: seq<Member>) {
    forall i :: 0 <= i < |ms| ==> Releasable(stage, ms[i])
  }

  /** Header, contents, and zeros up to the next block. */
  function WriteMember(m: Member): Bytes
    requires Shaped(m)
  {
    HeaderOf(m) + m.content + Repeat(NUL, Padding(|m.content|))
  }

  function WriteAll(stage: Bytes, ms: seq<Member>): Bytes
    requires AllReleasable(stage, ms)
  {
    if ms == [] then [] else WriteMember(ms[0]) + WriteAll(stage, ms[1..])
  }

  function ItemOf(stage: Bytes, m: Member): Item
    requires Shaped(m)
  {
    Item(HeaderOf(m), m.content, Repeat(NUL, Padding(|m.content|)), m.name, Output(stage, m.name))
  }

  function ItemsOf(stage: Bytes, ms: seq<Member>): seq<Item>
    requires AllReleasable(stage, ms)
  {
    seq(|ms|, i requires 0 <= i < |ms| => ItemOf(stage, ms[i]))
  }

  lemma MemberIsReadable(stage: Bytes, m: Member)
    requires Releasable(stage, m)
    ensures Readable(stage, ItemOf(stage, m))
  {
    HeaderReadsBack(m);
  }

  lemma ItemsTail(stage: Bytes, ms: seq<Member>)
    requires AllReleasable(stage, ms) && ms != []
    ensures ItemsOf(stage, ms) != [] && ItemsOf(stage, ms)[0] == ItemOf(stage, ms[0])
    ensures AllReleasable(stage, ms[1..]) && ItemsOf(stage, ms)[1..] == ItemsOf(stage, ms[1..])
  {
  }

  lemma {:induction false} MembersAreReadable(stage: Bytes, ms: seq<Member>)
    requires AllReleasable(stage, ms)
    ensures AllReadable(stage, ItemsOf(stage, ms))
  {
    if ms != [] {
      MemberIsReadable(stage, ms[0]);
      ItemsTail(stage, ms);
      MembersAreReadable(stage, ms[1..]);
    }
  }

  lemma {:induction false} LayoutIsWritten(stage: Bytes, ms: seq<Member>)
    requires AllReleasable(stage, ms)
    ensures Layout(ItemsOf(stage, ms)) == WriteAll(stage, ms)
  {
    if ms != [] {
      ItemsTail(stage, ms);
      LayoutIsWritten(stage, ms[1..]);
      var it := ItemOf(stage, ms[0]);
      assert Laid(it) == WriteMember(ms[0]);
    }
  }

  /** Headers plus sizes of the members. */
  function Weight(ms: seq<Member>): nat {
    if ms == [] then 0 else BLOCK + |ms[0].content| + Weight(ms[1..])
  }

  lemma {:induction false} WeightIsCharged(stage: Bytes, ms: seq<Member>)
    requires AllReleasable(stage, ms)
    ensures Charged(ItemsOf(stage, ms)) == Weight(ms)
  {
    if ms != [] {
      ItemsTail(stage, ms);
      WeightIsCharged(stage, ms[1..]);
    }
  }

  ghost predicate DistinctMembers(ms: seq<Member>) {
    forall i, j :: 0 <= i < j < |ms| ==> ms[i].name != ms[j].name
  }

  /** Written and read back: any archive of distinct releasable members with both
      binaries and within the cap is extracted, and the two files then hold
      exactly the binaries' bytes. `a` and `b` are where the binaries are. */
  lemma TarRoundTrip(stage: Bytes, ms: seq<Member>, a: nat, b: nat, files: Files, tail: Bytes)
    requires AllReleasable(stage, ms) && DistinctMembers(ms) && Weight(ms) <= MAX_ARCHIVE
    requires a < |ms| && ms[a].name == Inside(stage, "treeman")
    requires b < |ms| && ms[b].name == Inside(stage, "treemand")
    requires TREEMAN !in files && TREEMAND !in files
    ensures Extracted(WriteAll(stage, ms) + END + tail, stage, Progress({}, 0, files))
         == Finish(files[TREEMAN := ms[a].content][TREEMAND := ms[b].content])
  {
    var items := ItemsOf(stage, ms);
    MembersAreReadable(stage, ms);
    LayoutIsWritten(stage, ms);
    WeightIsCharged(stage, ms);
    MembersAcceptable(stage, ms, a, b, files);
    AcceptsItems(stage, items, tail, Progress({}, 0, files));
    FilesGain(stage, items, a, b, files);
  }

  lemma MembersAcceptable(stage: Bytes, ms: seq<Member>, a: nat, b: nat, files: Files)
    requires AllReleasable(stage, ms) && DistinctMembers(ms)
    requires a < |ms| && ms[a].name == Inside(stage, "treeman")
    requires b < |ms| && ms[b].name == Inside(stage, "treemand")
    requires TREEMAN !in files && TREEMAND !in files
    ensures var items := ItemsOf(stage, ms);
            DistinctNames(items, {}) && OutputsFree(items, files) && HasBoth(stage, items, {})
  {
    var items := ItemsOf(stage, ms);
    forall i | 0 <= i < |items| ensures items[i].name == ms[i].name && items[i].out == Output(stage, ms[i].name) {
      ItemAt(stage, ms, i);
    }
    NamesAcceptable(stage, ms, items, files);
    assert Named(items, items[a].name) && Named(items, items[b].name);
  }

  lemma ItemAt(stage: Bytes, ms: seq<Member>, i: nat)
    requires AllReleasable(stage, ms) && i < |ms|
    ensures ItemsOf(stage, ms)[i].name == ms[i].name
    ensures ItemsOf(stage, ms)[i].out == Output(stage, ms[i].name)
  {
  }

  lemma NamesAcceptable(stage: Bytes, ms: seq<Member>, items: seq<Item>, files: Files)
    requires |items| == |ms| && DistinctMembers(ms) && TREEMAN !in files && TREEMAND !in files
    requires forall i :: 0 <= i < |ms| ==> items[i].name == ms[i].name && items[i].out == Output(stage, ms[i].name)
    ensures DistinctNames(items, {}) && OutputsFree(items, files)
  {
  }
}
