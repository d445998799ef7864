/** Pruning of merged branches whose upstream is gone
    (internal/daemon/branchprune.go).

    Git is a set of answers. A query that fails is an absent answer, and
    `Truthful` says that the answers which did arrive are right. */
module BranchPrune {
  import opened Prelude
  import opened CommitGraph

  /** One line of `for-each-ref`: a local branch and its upstream state. */
  datatype Row = Row(name: string, track: string)

  datatype Git = Git(
    graph: Graph,
    tips: map<string, Commit>,                          // local branches
    defTip: Commit,                                     // the default remote ref's commit
    patchId: Commit -> string,                          // patch-id of a commit's own diff
    defName: Option<string>,                            // defaultRemoteRef, without `origin/`
    rows: Option<seq<Row>>,                             // for-each-ref refs/heads
    checkedOut: set<string>,                            // checkedOutBranches
    merged: Option<set<string>>,                        // for-each-ref --merged
    mergeBase: string -> Option<Commit>,                // merge-base defRef branch
    commitsBehind: Commit -> Option<nat>,               // rev-list --count base..defRef
    diffId: (Commit, string) -> string,                 // patch-id of diff base branch, "" on failure
    mergeBaseAll: seq<Commit> -> Option<Commit>,        // merge-base of several bases
    log: Option<Commit> -> Option<set<string>>,         // log -p --no-merges defRef ^bound | patch-id
    deletes: string -> bool)                            // branch -D succeeds

  const MAX_SQUASH_SCAN_COMMITS := 5000
  const GONE := "[gone]"

  // ------------------------------------------------------------ true answers

  /** The commits `git log --no-merges defRef ^bound` lists. */
  ghost predicate Listed(git: Git, bound: Option<Commit>, c: Commit) {
    && c in git.graph.parents && Reaches(git.graph, git.defTip, c) && !IsMerge(git.graph, c)
    && (bound.None? || !Reaches(git.graph, bound.value, c))
  }

  ghost predicate HasListedId(git: Git, bound: Option<Commit>, id: string) {
    exists c :: Listed(git, bound, c) && git.patchId(c) == id
  }

  ghost predicate Truthful(git: Git) {
    && (git.merged.Some? ==> forall n :: n in git.merged.value ==>
          n in git.tips && Reaches(git.graph, git.defTip, git.tips[n]))
    && (forall bound :: git.log(bound).Some? ==>
          forall id :: id in git.log(bound).value <==> id != "" && HasListedId(git, bound, id))
  }

  // ------------------------------------------------------------- what is asked

  /** A branch the loop looks at: not the default, upstream gone, not in use. */
  predicate Eligible(git: Git, row: Row)
    requires git.defName.Some?
  {
    row.name != "" && row.name != git.defName.value && row.track == GONE && row.name !in git.checkedOut
  }

  predicate InMerged(git: Git, name: string) {
    git.merged.Some? && name in git.merged.value
  }

  /** Branches deleted by the ancestor check, in listing order. */
  function FastDeleted(git: Git, rows: seq<Row>): seq<string>
    requires git.defName.Some?
  {
    if rows == [] then [] else
      var row := rows[|rows| - 1];
      FastDeleted(git, rows[..|rows| - 1]) +
      if Eligible(git, row) && InMerged(git, row.name) && git.deletes(row.name) then [row.name] else []
  }

  function Suspects(git: Git, rows: seq<Row>): seq<string>
    requires git.defName.Some?
  {
    if rows == [] then [] else
      var row := rows[|rows| - 1];
      Suspects(git, rows[..|rows| - 1]) +
      if Eligible(git, row) && !InMerged(git, row.name) then [row.name] else []
  }

  datatype Candidate = Candidate(name: string, patchId: string, base: Commit)

  /** A suspect whose fork point and cumulative patch-id could be computed and
      whose fork point is not too far back. */
  function CandidateOf(git: Git, name: string): Option<Candidate> {
    var base := git.mergeBase(name);
    if base.None? then None
    else
      var dist := git.commitsBehind(base.value);
      if dist.None? || dist.value > MAX_SQUASH_SCAN_COMMITS then None
      else
        var id := git.diffId(base.value, name);
        if id == "" then None else Some(Candidate(name, id, base.value))
  }

  function Candidates(git: Git, suspects: seq<string>): seq<Candidate> {
    if suspects == [] then [] else
      var c := CandidateOf(git, suspects[|suspects| - 1]);
      Candidates(git, suspects[..|suspects| - 1]) + if c.Some? then [c.value] else []
  }

  function Bases(cands: seq<Candidate>): seq<Commit> {
    seq(|cands|, i requires 0 <= i < |cands| => cands[i].base)
  }

  /** oldestCommonAncestor. */
  function LowerBound(git: Git, bases: seq<Commit>): Option<Commit> {
    if |bases| == 0 then None
    else if |bases| == 1 then Some(bases[0])
    else git.mergeBaseAll(bases)
  }

  function Present(cands: seq<Candidate>, ids: set<string>): seq<string> {
    if cands == [] then [] else
      var c := cands[|cands| - 1];
      Present(cands[..|cands| - 1], ids) + if c.patchId in ids then [c.name] else []
  }

  function SquashMerged(git: Git, suspects: seq<string>): seq<string> {
    var cands := Candidates(git, suspects);
    var ids := git.log(LowerBound(git, Bases(cands)));
    if cands == [] || ids.None? then [] else Present(cands, ids.value)
  }

  function Deletable(git: Git, names: seq<string>): seq<string> {
    if names == [] then [] else
      var n := names[|names| - 1];
      Deletable(git, names[..|names| - 1]) + if git.deletes(n) then [n] else []
  }

  function Pruned(git: Git): seq<string> {
    if git.defName.None? || git.rows.None? then []
    else FastDeleted(git, git.rows.value) + Deletable(git, SquashMerged(git, Suspects(git, git.rows.value)))
  }

  // ------------------------------------------------------------ the algorithm

  method SquashMergedSuspects(git: Git, suspects: seq<string>) returns (merged: seq<string>)
    ensures merged == SquashMerged(git, suspects)
  {
    if |suspects| == 0 {
      return [];
    }
    var cands: seq<Candidate>, bases: seq<Commit> := [], [];
    for i := 0 to |suspects|
      invariant cands == Candidates(git, suspects[..i])
      invariant bases == Bases(cands)
    {
      var name := suspects[i];
      assert suspects[..i + 1][..i] == suspects[..i];
      var base := git.mergeBase(name);
      if base.None? {
        continue;
      }
      var dist := git.commitsBehind(base.value);
      if dist.None? || dist.value > MAX_SQUASH_SCAN_COMMITS {
        continue;
      }
      var id := git.diffId(base.value, name);
      if id == "" {
        continue;
      }
      cands := cands + [Candidate(name, id, base.value)];
      bases := bases + [base.value];
    }
    assert suspects[..|suspects|] == suspects;
    if |cands| == 0 {
      return [];
    }
    var present := DefRefPatchIdIndex(git, bases);
    if present.None? {
      return [];
    }
    merged := [];
    for i := 0 to |cands|
      invariant merged == Present(cands[..i], present.value)
    {
      assert cands[..i + 1][..i] == cands[..i];
      if cands[i].patchId in present.value {
        merged := merged + [cands[i].name];
      }
    }
    assert cands[..|cands|] == cands;
  }

  method DefRefPatchIdIndex(git: Git, bases: seq<Commit>) returns (ids: Option<set<string>>)
    ensures ids == git.log(LowerBound(git, bases))
  {
    var oldest := None;
    if |bases| == 1 {
      oldest := Some(bases[0]);
    } else if |bases| > 1 {
      oldest := git.mergeBaseAll(bases);
    }
    ids := git.log(oldest);
  }

  method PruneGoneLocals(git: Git) returns (deleted: seq<string>)
    ensures deleted == Pruned(git)
  {
    if git.defName.None? || git.rows.None? {
      return [];
    }
    var rows := git.rows.value;
    deleted := [];
    var suspects := [];
    for i := 0 to |rows|
      invariant deleted == FastDeleted(git, rows[..i])
      invariant suspects == Suspects(git, rows[..i])
    {
      var row := rows[i];
      assert rows[..i + 1][..i] == rows[..i];
      if row.name == "" || row.name == git.defName.value || row.track != GONE {
        continue;
      }
      if row.name in git.checkedOut {
        continue;
      }
      if git.merged.Some? && row.name in git.merged.value {
        if git.deletes(row.name) {
          deleted := deleted + [row.name];
        }
        continue;
      }
      suspects := suspects + [row.name];
    }
    assert rows[..|rows|] == rows;
    var squashed := SquashMergedSuspects(git, suspects);
    ghost var fast := deleted;
    for i := 0 to |squashed|
      invariant deleted == fast + Deletable(git, squashed[..i])
    {
      assert squashed[..i + 1][..i] == squashed[..i];
      if git.deletes(squashed[i]) {
        deleted := deleted + [squashed[i]];
      }
    }
    assert squashed[..|squashed|] == squashed;
  }

  // ------------------------------------------------------- where names come from

  lemma {:induction false} FromFast(git: Git, rows: seq<Row>, name: string)
    requires git.defName.Some? && name in FastDeleted(git, rows)
    ensures InMerged(git, name)
    ensures exists r :: r in rows && r.name == name && Eligible(git, r)
  {
    var front, row := rows[..|rows| - 1], rows[|rows| - 1];
    if name in FastDeleted(git, front) {
      FromFast(git, front, name);
      var r :| r in front && r.name == name && Eligible(git, r);
      assert r in rows;
    } else {
      assert row in rows;
    }
  }

  lemma {:induction false} FromSuspects(git: Git, rows: seq<Row>, name: string)
    requires git.defName.Some? && name in Suspects(git, rows)
    ensures exists r :: r in rows && r.name == name && Eligible(git, r)
  {
    var front, row := rows[..|rows| - 1], rows[|rows| - 1];
    if name in Suspects(git, front) {
      FromSuspects(git, front, name);
      var r :| r in front && r.name == name && Eligible(git, r);
      assert r in rows;
    } else {
      assert row in rows;
    }
  }

  lemma {:induction false} FromCandidates(git: Git, suspects: seq<string>, c: Candidate)
    ensures c in Candidates(git, suspects) <==> c.name in suspects && CandidateOf(git, c.name) == Some(c)
  {
    if suspects != [] {
      var front, last := suspects[..|suspects| - 1], suspects[|suspects| - 1];
      FromCandidates(git, front, c);
      assert suspects == front + [last];
    }
  }

  lemma {:induction false} FromPresent(cands: seq<Candidate>, ids: set<string>, name: string)
    ensures name in Present(cands, ids) <==> exists c :: c in cands && c.name == name && c.patchId in ids
  {
    if cands != [] {
      var front, last := cands[..|cands| - 1], cands[|cands| - 1];
      FromPresent(front, ids, name);
      assert cands == front + [last];
      if c :| c in cands && c.name == name && c.patchId in ids {
        assert c in front || c == last;
      }
      if c :| c in front && c.name == name && c.patchId in ids {
        assert c in cands;
      }
      if last.name == name && last.patchId in ids {
        assert last in cands;
      }
    }
  }

  lemma {:induction false} FromDeletable(git: Git, names: seq<string>, name: string)
    requires name in Deletable(git, names)
    ensures name in names
  {
    var front := names[..|names| - 1];
    if name in Deletable(git, front) {
      FromDeletable(git, front, name);
    }
  }

  /** The batched answer, one branch at a time. */
  lemma SquashMergedMember(git: Git, suspects: seq<string>, name: string)
    ensures name in SquashMerged(git, suspects) <==>
            && name in suspects && CandidateOf(git, name).Some?
            && git.log(LowerBound(git, Bases(Candidates(git, suspects)))).Some?
            && CandidateOf(git, name).value.patchId
               in git.log(LowerBound(git, Bases(Candidates(git, suspects)))).value
  {
    var cands := Candidates(git, suspects);
    var ids := git.log(LowerBound(git, Bases(cands)));
    if CandidateOf(git, name).Some? {
      FromCandidates(git, suspects, CandidateOf(git, name).value);
    }
    if ids.Some? {
      FromPresent(cands, ids.value, name);
      if c :| c in cands && c.name == name && c.patchId in ids.value {
        FromCandidates(git, suspects, c);
      }
    }
  }

  // ------------------------------------------------------------------- safety

  /** The branch's own work is in the default branch's history. */
  ghost predicate Integrated(git: Git, name: string) {
    || (name in git.tips && Reaches(git.graph, git.defTip, git.tips[name]))
    || (git.mergeBase(name).Some? && var id := git.diffId(git.mergeBase(name).value, name);
        id != "" && HasListedId(git, None, id))
  }

  /** Whatever the DAG and whichever queries failed: a deleted branch is not the
      default, lost its upstream, is not checked out anywhere, and is reachable
      from the default ref or equal, as one patch, to a non-merge commit of it. */
  lemma PruneIsSafe(git: Git, name: string)
    requires Truthful(git) && name in Pruned(git)
    ensures git.defName.Some? && name != git.defName.value && name !in git.checkedOut
    ensures git.rows.Some? && Row(name, GONE) in git.rows.value
    ensures Integrated(git, name)
  {
    var rows := git.rows.value;
    if name in FastDeleted(git, rows) {
      FromFast(git, rows, name);
      var r :| r in rows && r.name == name && Eligible(git, r);
      assert r == Row(name, GONE);
    } else {
      var suspects := Suspects(git, rows);
      FromDeletable(git, SquashMerged(git, suspects), name);
      SquashMergedMember(git, suspects, name);
      FromSuspects(git, rows, name);
      var r :| r in rows && r.name == name && Eligible(git, r);
      assert r == Row(name, GONE);
      var bound := LowerBound(git, Bases(Candidates(git, suspects)));
      var id := CandidateOf(git, name).value.patchId;
      assert HasListedId(git, bound, id);
      var c :| Listed(git, bound, c) && git.patchId(c) == id;
      assert Listed(git, None, c);
    }
  }

  // ------------------------------------------------------ exactly what is pruned

  /** A listed branch that may go at all: not the default, upstream gone, in no
      worktree. */
  ghost predicate Candidacy(git: Git, row: Row) {
    && git.defName.Some? && row.name != "" && row.name != git.defName.value
    && row.track == "[gone]" && row.name !in git.checkedOut
  }

  ghost predicate MergedAnswer(git: Git, name: string) {
    git.merged.Some? && name in git.merged.value
  }

  /** Git tells where the branch forked, at most 5000 commits back, and the patch-id
      of all it changed since. */
  ghost predicate ForkKnown(git: Git, name: string, base: Commit) {
    && git.mergeBase(name) == Some(base)
    && git.commitsBehind(base).Some? && git.commitsBehind(base).value <= 5000
    && git.diffId(base, name) != ""
  }

  /** The row's branch takes part in the shared scan. */
  ghost predicate Scanned(git: Git, row: Row, base: Commit) {
    Candidacy(git, row) && !MergedAnswer(git, row.name) && ForkKnown(git, row.name, base)
  }

  /** `bases` are the fork points of the branches that take part, in listing order:
      `bases[k]` is that of `rows[at[k]]`, and no row is left out. */
  ghost predicate ForkPoints(git: Git, rows: seq<Row>, bases: seq<Commit>, at: seq<nat>) {
    && |bases| == |at|
    && (forall k :: 0 <= k < |at| ==> at[k] < |rows| && Scanned(git, rows[at[k]], bases[k]))
    && (forall k, l :: 0 <= k < l < |at| ==> at[k] < at[l])
    && (forall i, base :: 0 <= i < |rows| && Scanned(git, rows[i], base) ==> i in at)
  }

  lemma {:induction false} ForkPointsExist(git: Git, rows: seq<Row>) returns (bases: seq<Commit>, at: seq<nat>)
    requires git.defName.Some?
    ensures ForkPoints(git, rows, bases, at) && bases == Bases(Candidates(git, Suspects(git, rows)))
  {
    if rows == [] {
      bases, at := [], [];
    } else {
      var front, row := rows[..|rows| - 1], rows[|rows| - 1];
      bases, at := ForkPointsExist(git, front);
      SuspectsSnoc(git, front, row);
      ForkPointsSnoc(git, front, row, bases, at);
      assert rows == front + [row];
      var c := CandidateOf(git, row.name);
      if Eligible(git, row) && !InMerged(git, row.name) && c.Some? {
        bases, at := bases + [c.value.base], at + [|front|];
      }
    }
  }

  lemma SuspectsOf(git: Git, front: seq<Row>, row: Row)
    requires git.defName.Some?
    ensures Suspects(git, front + [row]) ==
            Suspects(git, front) + if Eligible(git, row) && !InMerged(git, row.name) then [row.name] else []
  {
    assert (front + [row])[..|front|] == front;
  }

  lemma BasesOf(git: Git, names: seq<string>, name: string)
    ensures var c := CandidateOf(git, name);
            Bases(Candidates(git, names + [name])) ==
            Bases(Candidates(git, names)) + if c.Some? then [c.value.base] else []
  {
    assert (names + [name])[..|names|] == names;
  }

  lemma SuspectsSnoc(git: Git, front: seq<Row>, row: Row)
    requires git.defName.Some?
    ensures var before, after := Suspects(git, front), Suspects(git, front + [row]);
            var c := CandidateOf(git, row.name);
            Bases(Candidates(git, after)) ==
            Bases(Candidates(git, before)) + if Eligible(git, row) && !InMerged(git, row.name) && c.Some? then [c.value.base] else []
  {
    SuspectsOf(git, front, row);
    if Eligible(git, row) && !InMerged(git, row.name) {
      BasesOf(git, Suspects(git, front), row.name);
    } else {
      assert Suspects(git, front) + [] == Suspects(git, front);
    }
  }

  lemma ScannedIs(git: Git, row: Row, base: Commit)
    requires git.defName.Some?
    ensures Scanned(git, row, base) <==>
            && Eligible(git, row) && !InMerged(git, row.name)
            && CandidateOf(git, row.name).Some? && CandidateOf(git, row.name).value.base == base
  {
  }

  lemma ForkPointsSnoc(git: Git, front: seq<Row>, row: Row, bases: seq<Commit>, at: seq<nat>)
    requires git.defName.Some? && ForkPoints(git, front, bases, at)
    ensures (forall base :: !Scanned(git, row, base)) ==> ForkPoints(git, front + [row], bases, at)
    ensures forall base :: Scanned(git, row, base) ==> ForkPoints(git, front + [row], bases + [base], at + [|front|])
    ensures forall base :: Scanned(git, row, base) <==>
              && Eligible(git, row) && !InMerged(git, row.name)
              && CandidateOf(git, row.name).Some? && CandidateOf(git, row.name).value.base == base
  {
    var rows := front + [row];
    assert forall i :: 0 <= i < |front| ==> rows[i] == front[i];
    forall base ensures Scanned(git, row, base) <==>
                   && Eligible(git, row) && !InMerged(git, row.name)
                   && CandidateOf(git, row.name).Some? && CandidateOf(git, row.name).value.base == base
    {
      ScannedIs(git, row, base);
    }
    forall base | Scanned(git, row, base) ensures ForkPoints(git, rows, bases + [base], at + [|front|]) {
      var at' := at + [|front|];
      forall i, b | 0 <= i < |rows| && Scanned(git, rows[i], b) ensures i in at' {
        if i < |front| {
          assert i in at;
        } else {
          assert at'[|at|] == i;
        }
      }
    }
  }

  /** The lower bound of the shared scan: the only fork point, or what git gives as
      the common ancestor of several. */
  ghost predicate ScanBound(git: Git, bases: seq<Commit>, bound: Option<Commit>) {
    && (|bases| == 1 ==> bound == Some(bases[0]))
    && (|bases| > 1 ==> bound == git.mergeBaseAll(bases))
  }

  /** The scan answered, and listed the branch's patch-id. */
  ghost predicate SquashSeen(git: Git, bound: Option<Commit>, name: string) {
    && git.mergeBase(name).Some? && ForkKnown(git, name, git.mergeBase(name).value)
    && git.log(bound).Some? && git.diffId(git.mergeBase(name).value, name) in git.log(bound).value
  }

  ghost predicate ToPrune(git: Git, bound: Option<Commit>, row: Row) {
    && Candidacy(git, row) && git.deletes(row.name)
    && (MergedAnswer(git, row.name) || SquashSeen(git, bound, row.name))
  }

  lemma {:induction false} FastMember(git: Git, rows: seq<Row>, name: string)
    requires git.defName.Some?
    ensures name in FastDeleted(git, rows) <==>
            exists r :: r in rows && r.name == name && Candidacy(git, r) && MergedAnswer(git, name) && git.deletes(name)
  {
    if rows != [] {
      var front, row := rows[..|rows| - 1], rows[|rows| - 1];
      FastMember(git, front, name);
      assert rows == front + [row] && row in rows;
      assert forall r :: r in rows <==> r in front || r == row;
    }
  }

  lemma {:induction false} SuspectMember(git: Git, rows: seq<Row>, name: string)
    requires git.defName.Some?
    ensures name in Suspects(git, rows) <==>
            exists r :: r in rows && r.name == name && Candidacy(git, r) && !MergedAnswer(git, name)
  {
    if rows != [] {
      var front, row := rows[..|rows| - 1], rows[|rows| - 1];
      SuspectMember(git, front, name);
      assert rows == front + [row] && row in rows;
      assert forall r :: r in rows <==> r in front || r == row;
    }
  }

  lemma SquashMember(git: Git, suspects: seq<string>, bound: Option<Commit>, name: string)
    requires bound == LowerBound(git, Bases(Candidates(git, suspects)))
    ensures name in SquashMerged(git, suspects) <==> name in suspects && SquashSeen(git, bound, name)
  {
    SquashMergedMember(git, suspects, name);
  }

  lemma {:induction false} DeletableHas(git: Git, names: seq<string>, name: string)
    requires name in names && git.deletes(name)
    ensures name in Deletable(git, names)
  {
    var front := names[..|names| - 1];
    assert names == front + [names[|names| - 1]];
    if name != names[|names| - 1] {
      DeletableHas(git, front, name);
    }
  }

  lemma DeletableMember(git: Git, names: seq<string>, name: string)
    ensures name in Deletable(git, names) <==> name in names && git.deletes(name)
  {
    if name in names && git.deletes(name) {
      DeletableHas(git, names, name);
    }
    if name in Deletable(git, names) {
      FromDeletable(git, names, name);
    }
  }

  /** Exactly which branches are pruned, over the listing and git's answers: the
      listed ones that may go, whose deletion succeeds, and that are in the merged
      set or have their patch-id in the one scan from the shared bound. */
  lemma PrunedExactly(git: Git, name: string)
    returns (bases: seq<Commit>, at: seq<nat>, bound: Option<Commit>)
    requires git.defName.Some? && git.rows.Some?
    ensures ForkPoints(git, git.rows.value, bases, at) && ScanBound(git, bases, bound)
    ensures name in Pruned(git) <==> exists r :: r in git.rows.value && r.name == name && ToPrune(git, bound, r)
  {
    var rows := git.rows.value;
    var suspects := Suspects(git, rows);
    bases, at := ForkPointsExist(git, rows);
    bound := LowerBound(git, bases);
    FastMember(git, rows, name);
    SuspectMember(git, rows, name);
    SquashMember(git, suspects, bound, name);
    DeletableMember(git, SquashMerged(git, suspects), name);
    PrunedIs(git, bound, name);
  }

  lemma PrunedIs(git: Git, bound: Option<Commit>, name: string)
    requires git.defName.Some? && git.rows.Some?
    requires name in FastDeleted(git, git.rows.value) <==>
             exists r :: r in git.rows.value && r.name == name && Candidacy(git, r) && MergedAnswer(git, name) && git.deletes(name)
    requires name in Deletable(git, SquashMerged(git, Suspects(git, git.rows.value))) <==>
             && (exists r :: r in git.rows.value && r.name == name && Candidacy(git, r) && !MergedAnswer(git, name))
             && SquashSeen(git, bound, name) && git.deletes(name)
    ensures name in Pruned(git) <==> exists r :: r in git.rows.value && r.name == name && ToPrune(git, bound, r)
  {
  }

  // ------------------------------------------------- batched versus one by one

  /** If the shared scan's lower bound is an ancestor of the branch's own fork
      point, batching finds every branch the single check finds. */
  lemma BatchFindsEverySingle(git: Git, suspects: seq<string>, name: string)
    requires Truthful(git) && name in suspects && name in SquashMerged(git, [name])
    requires var bound := LowerBound(git, Bases(Candidates(git, suspects)));
             && git.log(bound).Some?
             && (bound.None? || (CandidateOf(git, name).Some? &&
                                 Reaches(git.graph, CandidateOf(git, name).value.base, bound.value)))
    ensures name in SquashMerged(git, suspects)
  {
    var bound := LowerBound(git, Bases(Candidates(git, suspects)));
    SquashMergedMember(git, suspects, name);
    SingleBound(git, name);
    var cand := CandidateOf(git, name).value;
    assert HasListedId(git, Some(cand.base), cand.patchId);
    var c :| Listed(git, Some(cand.base), c) && git.patchId(c) == cand.patchId;
    if bound.Some? && Reaches(git.graph, bound.value, c) {
      ReachesTransitive(git.graph, cand.base, bound.value, c);
    }
    assert Listed(git, bound, c);
    assert HasListedId(git, bound, cand.patchId);
  }

  /** The single check scans from the branch's own fork point. */
  lemma SingleBound(git: Git, name: string)
    requires name in SquashMerged(git, [name])
    ensures CandidateOf(git, name).Some?
    ensures LowerBound(git, Bases(Candidates(git, [name]))) == Some(CandidateOf(git, name).value.base)
    ensures git.log(Some(CandidateOf(git, name).value.base)).Some?
    ensures CandidateOf(git, name).value.patchId in git.log(Some(CandidateOf(git, name).value.base)).value
  {
    SquashMergedMember(git, [name], name);
    CandidatesOfOne(git, name);
  }

  lemma CandidatesOfOne(git: Git, name: string)
    requires CandidateOf(git, name).Some?
    ensures Candidates(git, [name]) == [CandidateOf(git, name).value]
    ensures Bases(Candidates(git, [name])) == [CandidateOf(git, name).value.base]
  {
    assert [name][..0] == [];
  }

  ghost function ListedIds(git: Git, bound: Option<Commit>): set<string> {
    set c | c in git.graph.parents && Listed(git, bound, c) && git.patchId(c) != "" :: git.patchId(c)
  }

  /** `git` with other patch-ids on its commits and every log query answered. */
  ghost function WithPatchIds(git: Git, patchId: Commit -> string): Git {
    var g := git.(patchId := patchId);
    g.(log := bound => Some(ListedIds(g, bound)))
  }

  /** Some listed commit has this patch-id. */
  ghost predicate Carried(git: Git, bound: Option<Commit>, patchId: Commit -> string, id: string) {
    exists c :: Listed(git, bound, c) && patchId(c) == id
  }

  lemma LogAnswers(git: Git, patchId: Commit -> string, bound: Option<Commit>, id: string)
    ensures WithPatchIds(git, patchId).log(bound).Some?
    ensures id in WithPatchIds(git, patchId).log(bound).value
       <==> id != "" && Carried(git, bound, patchId, id)
  {
    var g := git.(patchId := patchId);
    assert forall c :: Listed(g, bound, c) <==> Listed(git, bound, c);
    assert WithPatchIds(git, patchId).log(bound) == Some(ListedIds(g, bound));
  }

  /** For these patch-ids the batch keeps up with the single check on `name`. */
  ghost predicate KeepsUp(git: Git, suspects: seq<string>, name: string, patchId: Commit -> string) {
    var g := WithPatchIds(git, patchId);
    name in SquashMerged(g, [name]) ==> name in SquashMerged(g, suspects)
  }

  /** Everything non-merge below the shared bound is below the branch's own fork
      point too. */
  ghost predicate BoundBelow(git: Git, bound: Option<Commit>, base: Commit) {
    bound.None? ||
    forall c :: Listed(git, None, c) && Reaches(git.graph, bound.value, c) ==> Reaches(git.graph, base, c)
  }

  lemma SameCandidates(git: Git, suspects: seq<string>, patchId: Commit -> string)
    ensures Candidates(WithPatchIds(git, patchId), suspects) == Candidates(git, suspects)
  {
    if suspects != [] {
      SameCandidates(git, suspects[..|suspects| - 1], patchId);
    }
  }

  /** The batched answer for `name` under other patch-ids. */
  lemma FoundUnder(git: Git, suspects: seq<string>, name: string, patchId: Commit -> string)
    requires name in suspects && CandidateOf(git, name).Some?
    ensures name in SquashMerged(WithPatchIds(git, patchId), suspects) <==>
            Carried(git, LowerBound(git, Bases(Candidates(git, suspects))), patchId, CandidateOf(git, name).value.patchId)
  {
    var g := WithPatchIds(git, patchId);
    SameCandidates(git, suspects, patchId);
    SquashMergedMember(g, suspects, name);
    assert CandidateOf(g, name) == CandidateOf(git, name);
    LogAnswers(git, patchId, LowerBound(git, Bases(Candidates(git, suspects))), CandidateOf(git, name).value.patchId);
  }

  /** Exactly when batching is complete. Whatever the commits' diffs are, the
      batched check returns every branch the single check returns if and only if
      the non-merge history below the shared bound lies below the branch's fork
      point. */
  lemma BatchCompleteExactlyWhen(git: Git, suspects: seq<string>, name: string)
    requires name in suspects && CandidateOf(git, name).Some?
    ensures (forall patchId: Commit -> string :: KeepsUp(git, suspects, name, patchId))
       <==> BoundBelow(git, LowerBound(git, Bases(Candidates(git, suspects))), CandidateOf(git, name).value.base)
  {
    var bound := LowerBound(git, Bases(Candidates(git, suspects)));
    var cand := CandidateOf(git, name).value;
    if BoundBelow(git, bound, cand.base) {
      forall patchId: Commit -> string ensures KeepsUp(git, suspects, name, patchId) {
        BoundBelowKeepsUp(git, suspects, name, patchId);
      }
    } else {
      var c: Commit :| Listed(git, None, c) && Reaches(git.graph, bound.value, c) && !Reaches(git.graph, cand.base, c);
      var patchId := OutsideBoundMisses(git, suspects, name, c);
    }
  }

  lemma BoundBelowKeepsUp(git: Git, suspects: seq<string>, name: string, patchId: Commit -> string)
    requires name in suspects && CandidateOf(git, name).Some?
    requires BoundBelow(git, LowerBound(git, Bases(Candidates(git, suspects))), CandidateOf(git, name).value.base)
    ensures KeepsUp(git, suspects, name, patchId)
  {
    var bound := LowerBound(git, Bases(Candidates(git, suspects)));
    var cand := CandidateOf(git, name).value;
    FoundUnder(git, suspects, name, patchId);
    FoundUnder(git, [name], name, patchId);
    CandidatesOfOne(git, name);
    if Carried(git, Some(cand.base), patchId, cand.patchId) {
      var c :| Listed(git, Some(cand.base), c) && patchId(c) == cand.patchId;
      assert Listed(git, None, c);
      assert Listed(git, bound, c);
    }
  }

  /** Only `c` changes anything, by the patch `id`. */
  function OnlyAt(c: Commit, id: string): Commit -> string {
    x => if x == c then id else ""
  }

  /** A commit below the bound but not below the fork point can carry the
      branch's patch, and then only the single check sees it. */
  lemma OutsideBoundMisses(git: Git, suspects: seq<string>, name: string, c: Commit)
    returns (patchId: Commit -> string)
    requires name in suspects && CandidateOf(git, name).Some?
    requires var bound := LowerBound(git, Bases(Candidates(git, suspects)));
             bound.Some? && Listed(git, None, c) && Reaches(git.graph, bound.value, c)
    requires !Reaches(git.graph, CandidateOf(git, name).value.base, c)
    ensures !KeepsUp(git, suspects, name, patchId)
  {
    var cand := CandidateOf(git, name).value;
    patchId := OnlyAt(c, cand.patchId);
    FoundUnder(git, suspects, name, patchId);
    FoundUnder(git, [name], name, patchId);
    CandidatesOfOne(git, name);
    assert Listed(git, Some(cand.base), c) && patchId(c) == cand.patchId;
    assert Carried(git, Some(cand.base), patchId, cand.patchId);
  }

  // ----------------------------------------- merge-base of three or more commits

  /** What `git merge-base first rest...` computes: a best common ancestor of
      `first` and a hypothetical merge of `rest`. */
  ghost predicate CommonWithMerge(g: Graph, first: Commit, rest: seq<Commit>, r: Commit) {
    Reaches(g, first, r) && exists o :: o in rest && Reaches(g, o, r)
  }

  ghost predicate MergeBaseOf(g: Graph, first: Commit, rest: seq<Commit>, r: Commit) {
    && CommonWithMerge(g, first, rest, r)
    && forall x :: CommonWithMerge(g, first, rest, x) && Reaches(g, x, r) ==> x == r
  }

  /** Five commits in a row, and one more on each of the branches `a`, `b` and `c`,
      which forked at the fourth, third and second of them. */
  const FORKS := Graph(map[0 := [], 1 := [0], 2 := [1], 3 := [2], 4 := [3], 5 := [3], 6 := [2], 7 := [1]])

  const GONE_ROWS := [Row("a", GONE), Row("b", GONE), Row("c", GONE)]

  function ThreeForks(rows: seq<Row>): Git {
    Git(FORKS, map["a" := 5, "b" := 6, "c" := 7], 4, c => "", Some("main"), Some(rows), {}, Some({}),
        n => if n == "a" then Some(3) else if n == "b" then Some(2) else if n == "c" then Some(1) else None,
        c => if c <= 4 then Some(4 - c) else None,
        (c, n) => if n == "c" then "squash" else n,
        bs => if bs == [3, 2, 1] then Some(2) else None, b => None, n => true)
  }

  /** Each branch's one commit has a patch of its own, and the third commit of the
      default branch is `c`'s, squash-merged. */
  function SquashIds(): Commit -> string {
    c => if c == 2 || c == 7 then "squash" else if c == 5 then "a" else if c == 6 then "b" else ""
  }

  /** The queries about a branch of one commit are all answered, and rightly: is it
      merged, where does it fork, how far back is that, and what does it change. */
  ghost predicate AnswersAbout(git: Git, name: string) {
    && name in git.tips && git.merged.Some?
    && (name in git.merged.value <==> Reaches(git.graph, git.defTip, git.tips[name]))
    && git.mergeBase(name).Some?
    && var tip, base := git.tips[name], git.mergeBase(name).value;
       && MergeBaseOf(git.graph, git.defTip, [tip], base)
       && git.commitsBehind(base) == Some(|History(git.graph, git.defTip) - History(git.graph, base)|)
       && tip in git.graph.parents && git.graph.parents[tip] == [base]
       && git.diffId(base, name) == git.patchId(tip)
  }

  lemma ForksTrunk()
    ensures Trunk(FORKS, 5)
  {
    assert Before(0) == [] && Before(1) == [0] && Before(2) == [1] && Before(3) == [2] && Before(4) == [3];
  }

  lemma ForkMergeBase(tip: Commit, base: Commit)
    requires 5 <= tip < 8 && base < 4 && FORKS.parents[tip] == [base]
    ensures MergeBaseOf(FORKS, 4, [tip], base) && !Reaches(FORKS, 4, tip)
  {
    ForksTrunk();
    TrunkReaches(FORKS, 5, 4, tip);
    TrunkReaches(FORKS, 5, 4, base);
    ForkReaches(FORKS, 5, tip, base, base);
    assert tip in [tip];
    forall x | CommonWithMerge(FORKS, 4, [tip], x) && Reaches(FORKS, x, base) ensures x == base {
      TrunkReaches(FORKS, 5, 4, x);
      ForkReaches(FORKS, 5, tip, base, x);
      TrunkReaches(FORKS, 5, x, base);
    }
  }

  lemma ForkHistory(c: Commit, x: Commit)
    requires c < 5
    ensures x in History(FORKS, c) <==> x <= c
  {
    ForksTrunk();
    TrunkReaches(FORKS, 5, c, x);
  }

  function Above(a: Commit, b: Commit): (s: set<Commit>)
    requires a <= b
    ensures forall x :: x in s <==> a < x <= b
    ensures |s| == b - a
  {
    if a == b then {} else Above(a, b - 1) + {b}
  }

  lemma ForkDistance(base: Commit)
    requires base <= 4
    ensures |History(FORKS, 4) - History(FORKS, base)| == 4 - base
  {
    var d := History(FORKS, 4) - History(FORKS, base);
    forall x: Commit ensures x in d <==> x in Above(base, 4) {
      ForkHistory(4, x);
      ForkHistory(base, x);
    }
    assert d == Above(base, 4);
  }

  lemma SquashedAnswers(rows: seq<Row>, name: string)
    requires name in {"a", "b", "c"}
    ensures AnswersAbout(SquashedC(rows), name)
  {
    var git := SquashedC(rows);
    var base := git.mergeBase(name).value;
    ForkMergeBase(git.tips[name], base);
    ForkDistance(base);
  }

  lemma ThreeForksCandidates(rows: seq<Row>)
    ensures Bases(Candidates(ThreeForks(rows), ["a", "b", "c"])) == [3, 2, 1]
    ensures CandidateOf(ThreeForks(rows), "c") == Some(Candidate("c", "squash", 1))
  {
    var git := ThreeForks(rows);
    var a, b, c := Candidate("a", "a", 3), Candidate("b", "b", 2), Candidate("c", "squash", 1);
    assert CandidateOf(git, "a") == Some(a) && CandidateOf(git, "b") == Some(b) && CandidateOf(git, "c") == Some(c);
    assert ["a"][..0] == [] && ["a", "b"][..1] == ["a"] && ["a", "b", "c"][..2] == ["a", "b"];
    assert Candidates(git, ["a"]) == [a];
    assert Candidates(git, ["a", "b"]) == [a, b];
    assert Candidates(git, ["a", "b", "c"]) == [a, b, c];
  }

  lemma ThreeForksMergeBase()
    ensures MergeBaseOf(FORKS, 3, [2, 1], 2)
  {
    ForksTrunk();
    TrunkReaches(FORKS, 5, 3, 2);
    TrunkReaches(FORKS, 5, 2, 2);
    assert 2 in [2, 1];
    forall x | CommonWithMerge(FORKS, 3, [2, 1], x) && Reaches(FORKS, x, 2) ensures x == 2 {
      TrunkReaches(FORKS, 5, 3, x);
      TrunkReaches(FORKS, 5, 2, x);
      TrunkReaches(FORKS, 5, 1, x);
      TrunkReaches(FORKS, 5, x, 2);
    }
  }

  lemma ThreeForksListed(rows: seq<Row>, bound: Commit)
    requires bound < 5
    ensures Listed(ThreeForks(rows), Some(bound), 2) <==> bound < 2
  {
    ForksTrunk();
    TrunkReaches(FORKS, 5, 4, 2);
    TrunkReaches(FORKS, 5, bound, 2);
  }

  lemma WithPatchIdsIsTruthful(git: Git, patchId: Commit -> string)
    requires git.merged.Some? && git.merged.value == {}
    ensures Truthful(WithPatchIds(git, patchId))
  {
    var g := WithPatchIds(git, patchId);
    forall bound, id
      ensures id in g.log(bound).value <==> id != "" && HasListedId(g, bound, id)
    {
      LogAnswers(git, patchId, bound, id);
      assert forall c :: Listed(g, bound, c) <==> Listed(git, bound, c);
    }
  }

  ghost function SquashedC(rows: seq<Row>): Git {
    WithPatchIds(ThreeForks(rows), SquashIds())
  }

  lemma SingleFinds(rows: seq<Row>)
    ensures "c" in SquashMerged(SquashedC(rows), ["c"])
  {
    var git, patchId := ThreeForks(rows), SquashIds();
    ThreeForksCandidates(rows);
    CandidatesOfOne(git, "c");
    FoundUnder(git, ["c"], "c", patchId);
    ThreeForksListed(rows, 1);
    assert patchId(2) == "squash";
    assert Carried(git, Some(1), patchId, "squash");
  }

  lemma BatchMisses(rows: seq<Row>)
    ensures "c" !in SquashMerged(SquashedC(rows), ["a", "b", "c"])
  {
    var git, patchId := ThreeForks(rows), SquashIds();
    ThreeForksCandidates(rows);
    assert LowerBound(git, [3, 2, 1]) == Some(2);
    FoundUnder(git, ["a", "b", "c"], "c", patchId);
    forall c | Listed(git, Some(2), c) ensures patchId(c) != "squash" {
      AboveSquash(rows, c);
    }
  }

  lemma AboveSquash(rows: seq<Row>, c: Commit)
    requires Listed(ThreeForks(rows), Some(2), c)
    ensures SquashIds()(c) != "squash"
  {
    ForksTrunk();
    TrunkReaches(FORKS, 5, 4, c);
    TrunkReaches(FORKS, 5, 2, c);
  }

  lemma ThreeSuspects()
    ensures Suspects(SquashedC(GONE_ROWS), GONE_ROWS) == ["a", "b", "c"]
    ensures Suspects(SquashedC([Row("c", GONE)]), [Row("c", GONE)]) == ["c"]
  {
    var git := SquashedC(GONE_ROWS);
    var a, b, c := Row("a", GONE), Row("b", GONE), Row("c", GONE);
    assert [a][..0] == [] && [a, b][..1] == [a] && [a, b, c][..2] == [a, b];
    assert Eligible(git, a) && Eligible(git, b) && Eligible(git, c);
    assert Suspects(git, [a]) == ["a"];
    assert Suspects(git, [a, b]) == ["a", "b"];
    assert Suspects(git, [a, b, c]) == ["a", "b", "c"];
    assert [c][..0] == [] && Eligible(SquashedC([c]), c);
  }

  lemma NotPruned(git: Git, rows: seq<Row>, name: string)
    requires git.defName.Some? && git.rows == Some(rows) && !InMerged(git, name)
    requires name !in SquashMerged(git, Suspects(git, rows))
    ensures name !in Pruned(git)
  {
    if name in FastDeleted(git, rows) {
      FromFast(git, rows, name);
    }
    if name in Deletable(git, SquashMerged(git, Suspects(git, rows))) {
      FromDeletable(git, SquashMerged(git, Suspects(git, rows)), name);
    }
  }

  lemma AloneIsPruned()
    ensures "c" in Pruned(SquashedC([Row("c", GONE)]))
  {
    var git := SquashedC([Row("c", GONE)]);
    ThreeSuspects();
    SingleFinds([Row("c", GONE)]);
    DeletableHas(git, SquashMerged(git, ["c"]), "c");
  }

  lemma TogetherIsKept()
    ensures "c" !in Pruned(SquashedC(GONE_ROWS))
  {
    ThreeSuspects();
    BatchMisses(GONE_ROWS);
    NotPruned(SquashedC(GONE_ROWS), GONE_ROWS, "c");
  }

  /** With three fork points on one line, git's bound lies above the oldest of
      them. `c` was squash-merged as the third commit. Listed alone it is pruned;
      listed with `a` and `b` it is kept, although every query is answered, and
      rightly. */
  lemma BatchMissesOldest()
    ensures Truthful(SquashedC(GONE_ROWS)) && Truthful(SquashedC([Row("c", GONE)]))
    ensures forall name :: name in {"a", "b", "c"} ==> AnswersAbout(SquashedC(GONE_ROWS), name)
    ensures SquashedC(GONE_ROWS).mergeBaseAll([3, 2, 1]) == Some(2) && MergeBaseOf(FORKS, 3, [2, 1], 2)
    ensures "c" in Pruned(SquashedC([Row("c", GONE)])) && "c" !in Pruned(SquashedC(GONE_ROWS))
  {
    forall name | name in {"a", "b", "c"} ensures AnswersAbout(SquashedC(GONE_ROWS), name) {
      SquashedAnswers(GONE_ROWS, name);
    }
    WithPatchIdsIsTruthful(ThreeForks(GONE_ROWS), SquashIds());
    WithPatchIdsIsTruthful(ThreeForks([Row("c", GONE)]), SquashIds());
    ThreeForksMergeBase();
    AloneIsPruned();
    TogetherIsKept();
  }
}
