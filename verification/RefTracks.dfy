/** The auto-fetch fast path (internal/daemon/autofetch.go): one parsed ref
    listing stands in for a git process per worktree. */
module RefTracks {
  import opened Prelude
  import opened Text
  import opened CommitGraph

  /** A branch's upstream relationship. */
  datatype Track = Track(upstream: string, ahead: int, behind: int, gone: bool)

  const NO_TRACK := Track("", 0, 0, false)

  // ------------------------------------------------------- the listing, printed

  datatype Branch = Branch(name: string, track: Track)

  /** No blank or control character, and no other white space at either end. */
  predicate Wordy(s: string) {
    Tight(s) && forall i :: 0 <= i < |s| ==> s[i] > ' '
  }

  /** What git can list: names without blanks, counts only for a live upstream. */
  predicate Listable(b: Branch) {
    && b.name != "" && Wordy(b.name) && Wordy(b.track.upstream)
    && 0 <= b.track.ahead <= MAX_INT && 0 <= b.track.behind <= MAX_INT
    && (b.track.upstream == "" ==> b.track == NO_TRACK)
    && (b.track.gone ==> b.track.ahead == 0 && b.track.behind == 0)
  }

  /** `ahead 3`, `behind 12`. */
  function Counted(word: string, n: nat): string {
    word + [' '] + Decimal(n)
  }

  /** %(upstream:track,nobracket) */
  function TrackText(t: Track): string
    requires 0 <= t.ahead && 0 <= t.behind
  {
    if t.gone then "gone"
    else if t.ahead == 0 && t.behind == 0 then ""
    else if t.behind == 0 then Counted("ahead", t.ahead)
    else if t.ahead == 0 then Counted("behind", t.behind)
    else Counted("ahead", t.ahead) + [','] + (" " + Counted("behind", t.behind))
  }

  function LineText(b: Branch): string
    requires Listable(b)
  {
    b.name + ['\t'] + (b.track.upstream + ['\t'] + TrackText(b.track))
  }

  /** The output of for-each-ref: one terminated line per branch. */
  function Listing(bs: seq<Branch>): string
    requires AllListable(bs)
  {
    Terminated(Lines(bs))
  }

  predicate AllListable(bs: seq<Branch>) {
    forall i :: 0 <= i < |bs| ==> Listable(bs[i])
  }

  function Lines(bs: seq<Branch>): seq<string>
    requires AllListable(bs)
  {
    seq(|bs|, i requires 0 <= i < |bs| => LineText(bs[i]))
  }

  // -------------------------------------------------------- the listing, parsed

  /** One comma-separated part of the track column. */
  function WithPart(t: Track, part: string): Track {
    var h := Cut(TrimSpace(part), ' ');
    var n := Atoi(h.after);
    if !h.found || n.None? then t
    else if h.before == "ahead" then t.(ahead := n.value)
    else if h.before == "behind" then t.(behind := n.value)
    else t
  }

  function WithParts(t: Track, parts: seq<string>): Track {
    if parts == [] then t else WithPart(WithParts(t, parts[..|parts| - 1]), parts[|parts| - 1])
  }

  function ParseTrack(upstream: string, column: string): Track {
    var t := Track(upstream, 0, 0, false);
    if column == "gone" then t.(gone := true)
    else if column == "" then t
    else WithParts(t, Split(column, ','))
  }

  function WithLine(m: map<string, Track>, line: string): map<string, Track> {
    var h := Cut(line, '\t');
    var fields := Cut(h.after, '\t');
    if !h.found then m else m[h.before := ParseTrack(fields.before, fields.after)]
  }

  function WithLines(lines: seq<string>): map<string, Track> {
    if lines == [] then map[] else WithLine(WithLines(lines[..|lines| - 1]), lines[|lines| - 1])
  }

  method TrackColumn(upstream: string, column: string) returns (tr: Track)
    ensures tr == ParseTrack(upstream, column)
  {
    tr := Track(upstream, 0, 0, false);
    if column == "gone" {
      tr := tr.(gone := true);
    } else if column != "" {
      var parts := Split(column, ',');
      ghost var blank := tr;
      for j := 0 to |parts|
        invariant tr == WithParts(blank, parts[..j])
      {
        assert parts[..j + 1][..j] == parts[..j];
        var h := Cut(TrimSpace(parts[j]), ' ');
        var n := Atoi(h.after);
        if !h.found || n.None? {
          continue;
        }
        if h.before == "ahead" {
          tr := tr.(ahead := n.value);
        } else if h.before == "behind" {
          tr := tr.(behind := n.value);
        }
      }
      assert parts[..|parts|] == parts;
    }
  }

  /** branchTrackStates on the listing's text. */
  method BranchTrackStates(out: string) returns (tracks: map<string, Track>)
    ensures tracks == WithLines(Split(TrimSpace(out), '\n'))
  {
    tracks := map[];
    var lines := Split(TrimSpace(out), '\n');
    for i := 0 to |lines|
      invariant tracks == WithLines(lines[..i])
    {
      assert lines[..i + 1][..i] == lines[..i];
      var h := Cut(lines[i], '\t');
      if !h.found {
        continue;
      }
      var fields := Cut(h.after, '\t');
      var tr := TrackColumn(fields.before, fields.after);
      tracks := tracks[h.before := tr];
    }
    assert lines[..|lines|] == lines;
  }

  // ------------------------------------------------------- reading a line back

  lemma CountedShape(word: string, n: nat)
    requires word != "" && Wordy(word) && ',' !in word
    ensures Counted(word, n) != "" && Tight(Counted(word, n))
    ensures ',' !in Counted(word, n) && '\n' !in Counted(word, n)
  {
    var s, d := Counted(word, n), Decimal(n);
    forall i | 0 <= i < |s| ensures s[i] != ',' && s[i] != '\n' {
      if i > |word| {
        assert s[i] == d[i - |word| - 1];
      }
    }
    assert s[|s| - 1] == d[|d| - 1];
  }

  lemma CountedReads(word: string, n: nat)
    requires n <= MAX_INT && Wordy(word)
    ensures Cut(Counted(word, n), ' ') == Halves(word, Decimal(n), true)
    ensures Atoi(Decimal(n)) == Some(n)
  {
    AtoiReadsBack(n);
    CutJoined(word, ' ', Decimal(n));
  }

  lemma ReadPart(t: Track, part: string, word: string, n: nat)
    requires n <= MAX_INT && word in {"ahead", "behind"} && TrimSpace(part) == Counted(word, n)
    ensures WithPart(t, part) == if word == "ahead" then t.(ahead := n) else t.(behind := n)
  {
    CountedReads(word, n);
  }

  lemma CountedTrims(word: string, n: nat)
    requires word in {"ahead", "behind"}
    ensures TrimSpace(Counted(word, n)) == Counted(word, n) == TrimSpace(" " + Counted(word, n))
  {
    CountedShape(word, n);
    TrimTight(Counted(word, n));
    TrimSpaceBefore(Counted(word, n));
  }

  lemma OnePart(t: Track, s: string)
    requires ',' !in s
    ensures WithParts(t, Split(s, ',')) == WithPart(t, s)
  {
    CutAbsent(s, ',');
    assert Split(s, ',') == [s] && [s][..0] == [];
  }

  lemma SplitTwo(x: string, y: string)
    requires ',' !in x && ',' !in y
    ensures Split(x + [','] + y, ',') == [x, y]
  {
    CutJoined(x, ',', y);
    CutAbsent(y, ',');
  }

  lemma FoldTwo(t: Track, x: string, y: string)
    ensures WithParts(t, [x, y]) == WithPart(WithPart(t, x), y)
  {
    assert [x, y][..1] == [x] && [x][..0] == [];
    assert WithParts(t, [x]) == WithPart(t, x);
  }

  predicate Countable(t: Track) {
    0 <= t.ahead <= MAX_INT && 0 <= t.behind <= MAX_INT && (t.gone ==> t.ahead == 0 && t.behind == 0)
  }

  /** The track column reads back as the state it was printed from. */
  lemma ReadTrack(t: Track)
    requires Countable(t)
    ensures ParseTrack(t.upstream, TrackText(t)) == t
  {
    var blank := Track(t.upstream, 0, 0, false);
    if t.gone || (t.ahead == 0 && t.behind == 0) {
    } else if t.behind == 0 {
      ReadOneCount(blank, "ahead", t.ahead);
    } else if t.ahead == 0 {
      ReadOneCount(blank, "behind", t.behind);
    } else {
      ReadBoth(t);
    }
  }

  lemma ReadOneCount(blank: Track, word: string, n: nat)
    requires n <= MAX_INT && word in {"ahead", "behind"} && blank == Track(blank.upstream, 0, 0, false)
    ensures ParseTrack(blank.upstream, Counted(word, n))
         == if word == "ahead" then blank.(ahead := n) else blank.(behind := n)
  {
    CountedShape(word, n);
    OnePart(blank, Counted(word, n));
    CountedTrims(word, n);
    ReadPart(blank, Counted(word, n), word, n);
    NotGone(word, n);
  }

  lemma TrackShape(t: Track)
    requires Countable(t)
    ensures TrackText(t) != "" ==> !IsSpace(TrackText(t)[|TrackText(t)| - 1]) && '\n' !in TrackText(t)
  {
    CountedShape("ahead", t.ahead);
    CountedShape("behind", t.behind);
    if t.ahead > 0 && t.behind > 0 {
      AfterSpace(Counted("behind", t.behind));
      BothShape(Counted("ahead", t.ahead), " " + Counted("behind", t.behind));
    }
  }

  lemma NotGone(word: string, n: nat)
    requires word in {"ahead", "behind"}
    ensures Counted(word, n) != "gone"
  {
    assert Counted(word, n)[0] == word[0] != 'g';
  }

  lemma BothParts(blank: Track, ahead: nat, behind: nat)
    requires ahead <= MAX_INT && behind <= MAX_INT
    ensures WithParts(blank, [Counted("ahead", ahead), " " + Counted("behind", behind)])
         == blank.(ahead := ahead, behind := behind)
  {
    var x, y := Counted("ahead", ahead), " " + Counted("behind", behind);
    FoldTwo(blank, x, y);
    CountedTrims("ahead", ahead);
    CountedTrims("behind", behind);
    ReadPart(blank, x, "ahead", ahead);
    ReadPart(blank.(ahead := ahead), y, "behind", behind);
  }

  lemma ParseTwo(upstream: string, x: string, y: string)
    requires ',' !in x && ',' !in y && x != "" && x[0] != 'g'
    ensures ParseTrack(upstream, x + [','] + y) == WithParts(Track(upstream, 0, 0, false), [x, y])
  {
    var s := x + [','] + y;
    assert s[0] == x[0];
    SplitTwo(x, y);
  }

  lemma ReadBoth(t: Track)
    requires 0 < t.ahead <= MAX_INT && 0 < t.behind <= MAX_INT && !t.gone
    ensures ParseTrack(t.upstream, TrackText(t)) == t
  {
    var x, y := Counted("ahead", t.ahead), Counted("behind", t.behind);
    CountedShape("ahead", t.ahead);
    CountedShape("behind", t.behind);
    AfterSpace(y);
    assert x[0] == 'a';
    ParseTwo(t.upstream, x, " " + y);
    BothParts(Track(t.upstream, 0, 0, false), t.ahead, t.behind);
  }

  lemma AfterSpace(y: string)
    requires y != "" && Tight(y) && ',' !in y && '\n' !in y
    ensures var z := " " + y; ',' !in z && '\n' !in z && !IsSpace(z[|z| - 1])
  {
    var z := " " + y;
    assert z[|z| - 1] == y[|y| - 1];
  }

  lemma BothShape(x: string, y: string)
    requires y != "" && !IsSpace(y[|y| - 1]) && '\n' !in x && '\n' !in y
    ensures var s := x + [','] + y; s != "" && !IsSpace(s[|s| - 1]) && '\n' !in s
  {
    var s := x + [','] + y;
    assert s[|s| - 1] == y[|y| - 1];
  }

  lemma ReadLine(m: map<string, Track>, b: Branch)
    requires Listable(b)
    ensures WithLine(m, LineText(b)) == m[b.name := b.track]
  {
    CutJoined(b.name, '\t', b.track.upstream + ['\t'] + TrackText(b.track));
    CutJoined(b.track.upstream, '\t', TrackText(b.track));
    ReadTrack(b.track);
  }

  lemma LineShape(b: Branch)
    requires Listable(b)
    ensures LineText(b) != "" && !IsSpace(LineText(b)[0]) && '\n' !in LineText(b)
  {
    TrackShape(b.track);
    assert LineText(b)[0] == b.name[0];
    assert forall c :: c in LineText(b) ==> c in b.name || c == '\t' || c in b.track.upstream || c in TrackText(b.track);
  }

  /** What is left of the last line after the listing's trailing white space
      was trimmed away. */
  lemma TrimmedLine(b: Branch)
    requires Listable(b)
    ensures TrimRight(LineText(b)) ==
            if b.track.upstream == "" then b.name
            else if TrackText(b.track) == "" then b.name + ['\t'] + b.track.upstream
            else LineText(b)
  {
    var line, text := LineText(b), TrackText(b.track);
    TrackShape(b.track);
    if b.track.upstream == "" {
      assert text == "";
      TrimNoUpstream(b.name, line);
    } else if text == "" {
      TrimNoTrack(b.name, b.track.upstream, line);
    } else {
      assert line[|line| - 1] == text[|text| - 1];
      TrimNothing(line);
    }
  }

  lemma TrimNothing(line: string)
    requires line != "" && !IsSpace(line[|line| - 1])
    ensures TrimRight(line) == line
  {
  }

  lemma TrimNoUpstream(name: string, line: string)
    requires name != "" && Wordy(name) && line == name + ['\t'] + ("" + ['\t'] + "")
    ensures TrimRight(line) == name
  {
    assert line == name + "\t\t";
    TrimRightSpaces(name, "\t\t");
  }

  lemma TrimNoTrack(name: string, up: string, line: string)
    requires name != "" && up != "" && Wordy(name) && Wordy(up) && line == name + ['\t'] + (up + ['\t'] + "")
    ensures TrimRight(line) == name + ['\t'] + up
  {
    var kept := name + ['\t'] + up;
    assert kept[0] == name[0] && kept[|kept| - 1] == up[|up| - 1];
    assert line == kept + "\t";
    TrimRightSpaces(kept, "\t");
  }

  /** A last branch without an upstream has no tab left and is skipped; any
      other last line still reads back. */
  lemma ReadTrimmedLine(m: map<string, Track>, b: Branch)
    requires Listable(b)
    ensures WithLine(m, TrimRight(LineText(b))) == if b.track.upstream == "" then m else m[b.name := b.track]
  {
    TrimmedLine(b);
    if b.track.upstream == "" {
      CutAbsent(b.name, '\t');
    } else if TrackText(b.track) == "" {
      ReadTrack(b.track);
      CutJoined(b.name, '\t', b.track.upstream);
      CutAbsent(b.track.upstream, '\t');
    } else {
      ReadLine(m, b);
    }
  }

  // --------------------------------------------------- reading the listing back

  /** The lines the parser sees. */
  function SeenLines(bs: seq<Branch>): seq<string>
    requires bs != [] && AllListable(bs)
  {
    Lines(bs[..|bs| - 1]) + [TrimRight(LineText(bs[|bs| - 1]))]
  }

  lemma SeenLinesShape(bs: seq<Branch>)
    requires bs != [] && AllListable(bs)
    ensures forall i :: 0 <= i < |SeenLines(bs)| ==> '\n' !in SeenLines(bs)[i]
  {
    var last := |bs| - 1;
    forall i | 0 <= i < |bs| ensures '\n' !in SeenLines(bs)[i] {
      LineShape(bs[i]);
      if i == last {
        TrimmedLine(bs[last]);
      } else {
        assert SeenLines(bs)[i] == LineText(bs[i]);
      }
    }
  }

  lemma TrimmedListing(bs: seq<Branch>)
    requires bs != [] && AllListable(bs)
    ensures TrimSpace(Listing(bs)) == Join(SeenLines(bs), "\n")
  {
    LineShape(bs[0]);
    TrimmedLineNotEmpty(bs[|bs| - 1]);
    FrontLines(bs);
    TrimmedLines(Lines(bs), SeenLines(bs));
  }

  lemma TrimmedLines(lines: seq<string>, seen: seq<string>)
    requires lines != [] && lines[0] != "" && !IsSpace(lines[0][0]) && TrimRight(lines[|lines| - 1]) != ""
    requires seen == lines[..|lines| - 1] + [TrimRight(lines[|lines| - 1])]
    ensures TrimSpace(Terminated(lines)) == Join(seen, "\n")
  {
    TrimSpaceTerminated(lines);
  }

  lemma TrimmedLineNotEmpty(b: Branch)
    requires Listable(b)
    ensures TrimRight(LineText(b)) != ""
  {
    TrimmedLine(b);
  }

  lemma FrontLines(bs: seq<Branch>)
    requires bs != [] && AllListable(bs)
    ensures Lines(bs)[..|bs| - 1] == Lines(bs[..|bs| - 1])
  {
  }

  /** Later lines win, as in the parser's map. */
  function ByName(bs: seq<Branch>): map<string, Track> {
    if bs == [] then map[] else ByName(bs[..|bs| - 1])[bs[|bs| - 1].name := bs[|bs| - 1].track]
  }

  lemma {:induction false} ReadLines(bs: seq<Branch>)
    requires AllListable(bs)
    ensures WithLines(Lines(bs)) == ByName(bs)
  {
    if bs != [] {
      var front := bs[..|bs| - 1];
      ReadLines(front);
      assert Lines(bs)[..|bs| - 1] == Lines(front);
      ReadLine(ByName(front), bs[|bs| - 1]);
    }
  }

  /** The branches a parsed listing knows: all of them, except a last one that
      has no upstream. */
  function Known(bs: seq<Branch>): map<string, Track> {
    if bs == [] then map[]
    else if bs[|bs| - 1].track.upstream == "" then ByName(bs[..|bs| - 1])
    else ByName(bs)
  }

  /** Every parsed entry is the state that was listed, for every listing. */
  lemma ListingReadsBack(bs: seq<Branch>)
    requires AllListable(bs)
    ensures WithLines(Split(TrimSpace(Listing(bs)), '\n')) == Known(bs)
  {
    if bs == [] {
      assert TrimSpace(Listing(bs)) == "";
      CutAbsent("", '\n');
      assert Split("", '\n') == [""] && [""][..0] == [];
    } else {
      var front, last := bs[..|bs| - 1], bs[|bs| - 1];
      TrimmedListing(bs);
      SeenLinesShape(bs);
      SplitJoined(SeenLines(bs), '\n');
      assert SeenLines(bs)[..|bs| - 1] == Lines(front);
      ReadLines(front);
      ReadTrimmedLine(ByName(front), last);
    }
  }

  // -------------------------------------------------- the state that is listed

  datatype Repo = Repo(
    graph: Graph,
    tips: map<string, Commit>,           // local branches
    upstreams: map<string, string>,      // configured upstream of a branch
    remotes: map<string, Commit>)        // remote-tracking refs that exist

  ghost predicate WellFormed(repo: Repo) {
    && Complete(repo.graph) && |repo.graph.parents| <= MAX_INT
    && (forall b :: b in repo.tips ==> repo.tips[b] in repo.graph.parents)
    && (forall r :: r in repo.remotes ==> repo.remotes[r] in repo.graph.parents)
    && (forall b :: b in repo.upstreams ==> repo.upstreams[b] != "")
  }

  predicate HasUpstream(repo: Repo, b: string) {
    b in repo.tips && b in repo.upstreams && repo.upstreams[b] in repo.remotes
  }

  function UpstreamTip(repo: Repo, b: string): Commit
    requires HasUpstream(repo, b)
  {
    repo.remotes[repo.upstreams[b]]
  }

  /** A branch's true upstream, ahead, behind and gone state. */
  ghost function TrueTrack(repo: Repo, b: string): Track
    requires b in repo.tips
  {
    if b !in repo.upstreams then NO_TRACK
    else if repo.upstreams[b] !in repo.remotes then Track(repo.upstreams[b], 0, 0, true)
    else
      var mine, theirs := History(repo.graph, repo.tips[b]), History(repo.graph, UpstreamTip(repo, b));
      Track(repo.upstreams[b], |mine - theirs|, |theirs - mine|, false)
  }

  lemma EmptyDifference<T>(a: set<T>, b: set<T>)
    ensures |a - b| == 0 <==> a <= b
  {
    if |a - b| == 0 {
      forall x | x in a ensures x in b {
        assert x !in a - b;
      }
    } else {
      var x := Member(a - b);
    }
  }

  /** The counts decide the shape: not behind means the upstream is contained in
      the branch, not ahead means the branch is contained in the upstream. */
  lemma CountsDecide(repo: Repo, b: string)
    requires WellFormed(repo) && HasUpstream(repo, b)
    ensures TrueTrack(repo, b).behind == 0 <==> Reaches(repo.graph, repo.tips[b], UpstreamTip(repo, b))
    ensures TrueTrack(repo, b).ahead == 0 <==> Reaches(repo.graph, UpstreamTip(repo, b), repo.tips[b])
  {
    var tip, up := repo.tips[b], UpstreamTip(repo, b);
    HistoryWithin(repo.graph, up, tip);
    HistoryWithin(repo.graph, tip, up);
    EmptyDifference(History(repo.graph, up), History(repo.graph, tip));
    EmptyDifference(History(repo.graph, tip), History(repo.graph, up));
  }

  // ------------------------------------------------------------- advancing

  datatype Merge = UpToDate | Forwarded | Refused | Broken

  /** What the worktree looks like and how git would answer in it. */
  datatype Site = Site(
    pathExists: bool,
    branch: Option<string>,            // None when HEAD is detached
    upstream: Option<Commit>,          // what @{u} resolves to
    clean: Option<bool>,               // None when git status fails
    merge: Merge)                      // merge --ff-only @{u}

  /** Git's answers match the repository. */
  ghost predicate Truthful(repo: Repo, site: Site) {
    site.branch.Some? ==>
      var b := site.branch.value;
      && b in repo.tips
      && (site.upstream.Some? <==> HasUpstream(repo, b))
      && (site.upstream.Some? ==>
            var tip, up := repo.tips[b], UpstreamTip(repo, b);
            && site.upstream.value == up
            && (site.merge == UpToDate ==> Reaches(repo.graph, tip, up))
            && (site.merge == Forwarded ==> Reaches(repo.graph, up, tip) && !Reaches(repo.graph, tip, up)))
  }

  function FastForwarded(site: Site, tip: Commit): Commit {
    if site.clean == Some(true) && site.merge == Forwarded && site.upstream.Some? then site.upstream.value else tip
  }

  /** Where SyncWorktree leaves the branch in ff mode. */
  function SlowTip(site: Site, tip: Commit): Commit {
    if !site.pathExists || site.branch.None? || site.upstream.None? then tip else FastForwarded(site, tip)
  }

  /** Where syncWorktreeFromTracks leaves it. */
  function FastTip(site: Site, tip: Commit, tracks: map<string, Track>): Commit {
    if !site.pathExists || site.branch.None? then tip
    else if site.branch.value !in tracks then SlowTip(site, tip)
    else
      var tr := tracks[site.branch.value];
      if tr.upstream == "" || tr.gone || tr.behind == 0 || tr.ahead > 0 then tip
      else FastForwarded(site, tip)
  }

  const PATH_GONE := "path_missing"
  const DETACHED := "detached_head"
  const NO_UPSTREAM := "no_upstream"
  const NON_FF := "non_ff"
  const DIRTY := "dirty"

  /** The reason kept after each path: unchanged where the source records
      nothing, "" after a successful merge. */
  function FFSkip(site: Site, before: string): string {
    if site.clean.None? then before
    else if !site.clean.value then DIRTY
    else if site.upstream.None? || site.merge == Refused then NON_FF
    else if site.merge == Broken then before
    else ""
  }

  function SlowSkip(site: Site, before: string): string {
    if !site.pathExists then PATH_GONE
    else if site.branch.None? then DETACHED
    else if site.upstream.None? then NO_UPSTREAM
    else FFSkip(site, before)
  }

  function FastSkip(site: Site, before: string, tracks: map<string, Track>): string {
    if !site.pathExists then PATH_GONE
    else if site.branch.None? then DETACHED
    else if site.branch.value !in tracks then SlowSkip(site, before)
    else
      var tr := tracks[site.branch.value];
      if tr.upstream == "" || tr.gone then NO_UPSTREAM
      else if tr.behind == 0 then before
      else if tr.ahead > 0 then NON_FF
      else FFSkip(site, before)
  }

  /** A worktree being synced in ff mode: its branch's commit, and the skip
      reason State keeps for it ("" after an advance). */
  class Checkout {
    var tip: Commit
    var lastSkip: string

    constructor (tip: Commit)
      ensures this.tip == tip && lastSkip == ""
    {
      this.tip, lastSkip := tip, "";
    }

    method AdvanceFF(site: Site)
      modifies this
      ensures tip == FastForwarded(site, old(tip))
      ensures lastSkip == FFSkip(site, old(lastSkip))
    {
      if site.clean.None? {
        return;
      }
      if !site.clean.value {
        lastSkip := DIRTY;
        return;
      }
      if site.upstream.None? || site.merge == Refused {
        lastSkip := NON_FF;
        return;
      }
      match site.merge {
        case UpToDate => lastSkip := "";
        case Forwarded => tip, lastSkip := site.upstream.value, "";
        case _ =>
      }
    }

    method SyncWorktree(site: Site)
      modifies this
      ensures tip == SlowTip(site, old(tip)) && lastSkip == SlowSkip(site, old(lastSkip))
    {
      if !site.pathExists {
        lastSkip := PATH_GONE;
      } else if site.branch.None? {
        lastSkip := DETACHED;
      } else if site.upstream.None? {
        lastSkip := NO_UPSTREAM;
      } else {
        AdvanceFF(site);
      }
    }

    method SyncFromTracks(site: Site, tracks: map<string, Track>)
      modifies this
      ensures tip == FastTip(site, old(tip), tracks) && lastSkip == FastSkip(site, old(lastSkip), tracks)
    {
      if !site.pathExists {
        lastSkip := PATH_GONE;
        return;
      }
      if site.branch.None? {
        lastSkip := DETACHED;
        return;
      }
      if site.branch.value !in tracks {
        SyncWorktree(site);
        return;
      }
      var tr := tracks[site.branch.value];
      if tr.upstream == "" || tr.gone {
        lastSkip := NO_UPSTREAM;
        return;
      }
      if tr.behind == 0 {
        return;
      }
      if tr.ahead > 0 {
        lastSkip := NON_FF;
        return;
      }
      AdvanceFF(site);
    }
  }

  /** Every entry of `tracks` is the branch's true state. */
  ghost predicate TracksTrue(repo: Repo, tracks: map<string, Track>) {
    forall b :: b in tracks ==> b in repo.tips && tracks[b] == TrueTrack(repo, b)
  }

  /** Deciding from the listing leaves the branch exactly where the fork-based
      path would, and the new tip descends from the old one. */
  lemma FastRefinesSlow(repo: Repo, site: Site, tracks: map<string, Track>, tip: Commit)
    requires WellFormed(repo) && Truthful(repo, site) && TracksTrue(repo, tracks)
    requires site.branch.Some? ==> tip == repo.tips[site.branch.value]
    ensures FastTip(site, tip, tracks) == SlowTip(site, tip)
    ensures Reaches(repo.graph, SlowTip(site, tip), tip)
  {
    ReachesSelf(repo.graph, tip);
    if site.branch.Some? && HasUpstream(repo, site.branch.value) {
      CountsDecide(repo, site.branch.value);
    }
  }

  /** Progress, exactly: both paths move the tip to the upstream's when the path is
      there, the branch has an upstream, the tree is clean and git fast-forwards, and
      leave it alone in every other case. */
  lemma SyncMovesExactly(repo: Repo, site: Site, tracks: map<string, Track>, tip: Commit)
    requires WellFormed(repo) && Truthful(repo, site) && TracksTrue(repo, tracks)
    requires site.branch.Some? ==> tip == repo.tips[site.branch.value]
    ensures var moves := site.pathExists && site.branch.Some? && HasUpstream(repo, site.branch.value)
                         && site.clean == Some(true) && site.merge == Forwarded;
            && (moves ==> UpstreamTip(repo, site.branch.value) != tip)
            && FastTip(site, tip, tracks) == (if moves then UpstreamTip(repo, site.branch.value) else tip)
            && SlowTip(site, tip) == (if moves then UpstreamTip(repo, site.branch.value) else tip)
  {
    FastRefinesSlow(repo, site, tracks, tip);
    ReachesSelf(repo.graph, tip);
  }

  /** The reason the fork-based path leaves, as the word shown to the user. */
  lemma ReasonsExactly(site: Site, before: string)
    ensures !site.pathExists ==> SlowSkip(site, before) == "path_missing"
    ensures site.pathExists && site.branch.None? ==> SlowSkip(site, before) == "detached_head"
    ensures site.pathExists && site.branch.Some? && site.upstream.None? ==> SlowSkip(site, before) == "no_upstream"
    ensures site.pathExists && site.branch.Some? && site.upstream.Some? ==>
              SlowSkip(site, before) ==
              (if site.clean == Some(false) then "dirty"
               else if site.clean == Some(true) && site.merge == Refused then "non_ff"
               else if site.clean == Some(true) && site.merge in {UpToDate, Forwarded} then ""
               else before)
  {
  }

  /** The fast path keeps the old reason where a merge would find nothing to do;
      the slow one asks git all the same. */
  predicate UpToDateDiffers(site: Site, before: string) {
    || (site.clean == Some(false) && before != DIRTY)
    || (site.clean == Some(true) && site.merge == UpToDate && before != "")
    || (site.clean == Some(true) && site.merge == Refused && before != NON_FF)
  }

  /** The fast path says it diverged without looking at the tree. */
  predicate DivergedDiffers(site: Site, before: string) {
    || site.clean == Some(false)
    || (site.clean.None? && before != NON_FF)
    || (site.clean == Some(true) && site.merge == Broken && before != NON_FF)
  }

  /** Exactly when the two paths record different reasons: for a listed branch
      that has an upstream but nothing to fast-forward to. Up to date, when the
      tree is dirty or git was asked and answered, and that is not the reason
      already kept; diverged, when the tree is dirty, or git failed and the reason
      kept is another one. Whoever moves the tip clears the reason. */
  lemma SkipsDifferExactly(repo: Repo, site: Site, tracks: map<string, Track>, tip: Commit, before: string)
    requires WellFormed(repo) && Truthful(repo, site) && TracksTrue(repo, tracks)
    requires site.branch.Some? ==> tip == repo.tips[site.branch.value]
    ensures FastSkip(site, before, tracks) != SlowSkip(site, before) <==>
              && site.pathExists && site.branch.Some? && site.branch.value in tracks
              && HasUpstream(repo, site.branch.value)
              && var tr := TrueTrack(repo, site.branch.value);
                 || (tr.behind == 0 && UpToDateDiffers(site, before))
                 || (tr.behind > 0 && tr.ahead > 0 && DivergedDiffers(site, before))
    ensures FastTip(site, tip, tracks) != tip ==> FastSkip(site, before, tracks) == ""
    ensures SlowTip(site, tip) != tip ==> SlowSkip(site, before) == ""
  {
    FastRefinesSlow(repo, site, tracks, tip);
    if site.branch.Some? && HasUpstream(repo, site.branch.value) {
      var b := site.branch.value;
      CountsDecide(repo, b);
      MergeReasons(site, before);
      assert TrueTrack(repo, b).behind == 0 ==> site.merge != Forwarded;
      assert TrueTrack(repo, b).behind > 0 && TrueTrack(repo, b).ahead > 0 ==> site.merge == Refused || site.merge == Broken;
    }
  }

  lemma MergeReasons(site: Site, before: string)
    requires site.upstream.Some?
    ensures site.merge != Forwarded ==> (FFSkip(site, before) != before <==> UpToDateDiffers(site, before))
    ensures site.merge == Refused || site.merge == Broken ==>
              (FFSkip(site, before) != NON_FF <==> DivergedDiffers(site, before))
  {
  }

  // ------------------------------------------------------------ end to end

  /** Everything `bs` lists is a local branch with its true state. */
  ghost predicate ListsRepo(repo: Repo, bs: seq<Branch>) {
    && AllListable(bs)
    && (forall i :: 0 <= i < |bs| ==> bs[i].name in repo.tips && bs[i].track == TrueTrack(repo, bs[i].name))
  }

  lemma {:induction false} ByNameIsTrue(repo: Repo, bs: seq<Branch>)
    requires ListsRepo(repo, bs)
    ensures TracksTrue(repo, ByName(bs))
  {
    if bs != [] {
      ByNameIsTrue(repo, bs[..|bs| - 1]);
    }
  }

  /** From git's printed listing to the final tip: every parsed entry is true,
      and deciding from them agrees with the fork-based path for every
      repository and worktree. */
  lemma ParsedSyncRefinesSlow(repo: Repo, site: Site, bs: seq<Branch>, tip: Commit)
    requires WellFormed(repo) && Truthful(repo, site) && ListsRepo(repo, bs)
    requires site.branch.Some? ==> tip == repo.tips[site.branch.value]
    ensures var tracks := WithLines(Split(TrimSpace(Listing(bs)), '\n'));
            TracksTrue(repo, tracks) && FastTip(site, tip, tracks) == SlowTip(site, tip)
  {
    ListingReadsBack(bs);
    ByNameIsTrue(repo, bs);
    if bs != [] {
      ByNameIsTrue(repo, bs[..|bs| - 1]);
    }
    FastRefinesSlow(repo, site, Known(bs), tip);
  }
}
