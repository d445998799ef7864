/** What becomes of one claim of a finalize slot (internal/daemon/finalize.go). */
module ClaimReleases {
  import opened Prelude
  import opened FinalizeProtocol

  predicate IsClaim(l: Label) {
    l.Claim? || l.PlainClaim?
  }

  /** Nobody took the slot again after step `i`. */
  ghost predicate NotRetaken(tr: seq<Label>, i: nat, path: Path) {
    forall k :: i < k < |tr| ==> !Takes(tr[k], path)
  }

  /** Claim `i` is still running. */
  ghost predicate ClaimOpen(tr: seq<Label>, i: nat)
    requires Run(tr) && i < |tr| && IsClaim(tr[i])
  {
    NotRetaken(tr, i, tr[i].path) && HolderOf(After(tr), tr[i].t, tr[i].path)
  }

  /** Step `j` released the slot claim `i` took. */
  ghost predicate ReleasedAt(tr: seq<Label>, i: nat, j: nat)
    requires i < |tr| && IsClaim(tr[i])
  {
    i < j < |tr| && Frees(tr[j], tr[i].path) && NotRetaken(tr[..j], i, tr[i].path)
  }

  /** The run of claim `i` panicked in the lock at step `j`. */
  ghost predicate LeakedAt(tr: seq<Label>, i: nat, j: nat)
    requires i < |tr| && IsClaim(tr[i])
  {
    i < j < |tr| && Leaks(tr[j], tr[i].path) && NotRetaken(tr[..j], i, tr[i].path)
  }

  ghost predicate Ends(tr: seq<Label>, i: nat, j: nat)
    requires i < |tr| && IsClaim(tr[i])
  {
    ReleasedAt(tr, i, j) || LeakedAt(tr, i, j)
  }

  /** Where claim `i` stands: open and not ended, or ended once, by its own
      goroutine, and with no holder since. */
  ghost predicate Fate(tr: seq<Label>, i: nat, end: Option<nat>)
    requires Run(tr) && i < |tr| && IsClaim(tr[i])
  {
    match end
    case None => ClaimOpen(tr, i) && forall j: nat :: !Ends(tr, i, j)
    case Some(e) =>
      && Ends(tr, i, e) && tr[e].t == tr[i].t && (forall j: nat :: Ends(tr, i, j) ==> j == e)
      && (NotRetaken(tr, i, tr[i].path) ==> forall t :: !HolderOf(After(tr), t, tr[i].path))
  }

  lemma EndsFront(front: seq<Label>, l: Label, i: nat, j: nat)
    requires i < |front| && IsClaim(front[i])
    ensures j < |front| ==> (Ends(front + [l], i, j) <==> Ends(front, i, j))
    ensures Ends(front + [l], i, |front|) <==>
              NotRetaken(front, i, front[i].path) && (Frees(l, front[i].path) || Leaks(l, front[i].path))
  {
    var tr := front + [l];
    assert tr[..|front|] == front;
    assert j < |front| ==> tr[..j] == front[..j];
  }

  lemma NotRetakenFront(front: seq<Label>, l: Label, i: nat, path: Path)
    requires i < |front|
    ensures NotRetaken(front + [l], i, path) <==> NotRetaken(front, i, path) && !Takes(l, path)
  {
    var tr := front + [l];
    assert tr[|front|] == l && forall k :: 0 <= k < |front| ==> tr[k] == front[k];
  }

  lemma FateStep(front: seq<Label>, l: Label, i: nat, end: Option<nat>) returns (end': Option<nat>)
    requires i < |front| && IsClaim(front[i]) && Run(front) && Run(front + [l]) && Fate(front, i, end)
    ensures Fate(front + [l], i, end')
  {
    RunSnoc(front, l);
    Exclusion(front);
    StepMovesOwners(After(front), l);
    var tr, path := front + [l], front[i].path;
    assert tr[i] == front[i];
    forall j: nat ensures Ends(tr, i, j) ==> j <= |front|
                  ensures j < |front| ==> (Ends(tr, i, j) <==> Ends(front, i, j))
    {
      EndsFront(front, l, i, j);
    }
    EndsFront(front, l, i, i);
    NotRetakenFront(front, l, i, path);
    if end.None? && (Frees(l, path) || Leaks(l, path)) {
      end' := Some(|front|);
    } else {
      end' := end;
      assert end.Some? ==> tr[end.value] == front[end.value];
    }
  }

  lemma {:induction false} ClaimHasFate(tr: seq<Label>, i: nat) returns (end: Option<nat>)
    requires Run(tr) && i < |tr| && IsClaim(tr[i])
    ensures Fate(tr, i, end)
  {
    var front, l := tr[..|tr| - 1], tr[|tr| - 1];
    assert tr == front + [l];
    RunSnoc(front, l);
    if i == |front| {
      end := None;
    } else {
      end := ClaimHasFate(front, i);
      end := FateStep(front, l, i, end);
    }
  }

  /** Exactly when a claim is released: it is still running, or it was released
      once, by its own goroutine, unless its run panicked while taking or giving
      back the cross-process lock; and then it never is. */
  lemma ReleasedOnceExactly(tr: seq<Label>, i: nat)
    requires Run(tr) && i < |tr| && IsClaim(tr[i])
    ensures forall j: nat, k: nat :: ReleasedAt(tr, i, j) && ReleasedAt(tr, i, k) ==> j == k
    ensures forall j: nat :: ReleasedAt(tr, i, j) ==> tr[j].t == tr[i].t
    ensures ClaimOpen(tr, i) ==> forall j: nat :: !ReleasedAt(tr, i, j) && !LeakedAt(tr, i, j)
    ensures !ClaimOpen(tr, i) ==> ((exists j: nat :: ReleasedAt(tr, i, j)) <==> !(exists j: nat :: LeakedAt(tr, i, j)))
    ensures (exists j: nat :: LeakedAt(tr, i, j)) ==> Leaked(After(tr), tr[i].path)
  {
    LeakedExactly(tr, tr[i].path);
    var end := ClaimHasFate(tr, i);
    assert forall j: nat :: ReleasedAt(tr, i, j) || LeakedAt(tr, i, j) ==> Ends(tr, i, j);
    assert end.Some? ==> !(ReleasedAt(tr, i, end.value) && LeakedAt(tr, i, end.value));
  }
}
