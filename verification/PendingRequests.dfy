/** No accepted change is lost, over every interleaving of claims, queueings,
    releases and replays (internal/daemon/state.go, internal/daemon/finalize.go). */
module PendingRequests {
  import opened Prelude
  import opened FinalizeSlots
  import opened FinalizeProtocol

  ghost predicate ThreadCarries(th: Thread, want: Rerun) {
    (th.pc.AtClaim? && Covers(th.pc.req, want)) || ListCovers(th.rest, want)
  }

  ghost predicate CarriedBy(s: State, t: Tid, path: Path, want: Rerun) {
    t in s.threads && s.threads[t].path == path && ThreadCarries(s.threads[t], want)
  }

  /** Something that covers `want` still waits: on the slot's queue, in a
      goroutine's list, or in a goroutine about to reach the slot. */
  ghost predicate Pending(s: State, path: Path, want: Rerun) {
    || (path in s.slots && EntryCovers(s.slots[path], want))
    || (exists t :: CarriedBy(s, t, path, want))
  }

  /** A run that covers `want` took the slot at this step. */
  ghost predicate Serves(l: Label, path: Path, want: Rerun) {
    l.Claim? && l.path == path && Covers(l.req, want)
  }

  ghost predicate Drops(l: Label, path: Path, want: Rerun) {
    (l.Discard? || l.Unwind? || l.LockPanic?) && l.path == path && ListCovers(l.lost, want)
  }

  lemma QueuedRequest(s: State, l: Label, path: Path, want: Rerun)
    requires SlotsOwned(s) && Enabled(s, l) && path in s.slots && EntryCovers(s.slots[path], want)
    ensures Pending(Apply(s, l), path, want)
  {
    if Frees(l, path) {
      HandbackCovers(s.slots[path], want);
      assert CarriedBy(Apply(s, l), l.replayer, path, want);
    } else if l.Queue? && l.path == path {
      EnqueueCovers(s.slots[path], l.req, want);
    } else {
      assert path in Apply(s, l).slots && Apply(s, l).slots[path] == s.slots[path];
    }
  }

  /** One step never loses a pending request silently. */
  lemma PendingStep(s: State, l: Label, path: Path, want: Rerun)
    requires SlotsOwned(s) && Enabled(s, l) && Pending(s, path, want)
    ensures Pending(Apply(s, l), path, want) || Serves(l, path, want) || Drops(l, path, want)
  {
    if path in s.slots && EntryCovers(s.slots[path], want) {
      QueuedRequest(s, l, path, want);
    } else {
      var t :| CarriedBy(s, t, path, want);
      var s' := Apply(s, l);
      if t in s'.threads && s'.threads[t] == s.threads[t] {
        assert CarriedBy(s', t, path, want);
      } else {
        MovedRequest(s, l, t, path, want);
      }
    }
  }

  lemma MovedRequest(s: State, l: Label, t: Tid, path: Path, want: Rerun)
    requires SlotsOwned(s) && Enabled(s, l) && CarriedBy(s, t, path, want)
    requires t !in Apply(s, l).threads || Apply(s, l).threads[t] != s.threads[t]
    ensures Pending(Apply(s, l), path, want) || Serves(l, path, want) || Drops(l, path, want)
  {
    var s', th := Apply(s, l), s.threads[t];
    assert t == l.t;
    if l.Next? {
      var i :| 0 <= i < |th.rest| && Covers(th.rest[i], want);
      if i > 0 {
        assert s'.threads[t].rest[i - 1] == th.rest[i];
      }
      assert CarriedBy(s', t, path, want);
    } else if l.Queue? && Covers(l.req, want) {
      EnqueueCovers(s.slots[path], l.req, want);
    } else if !l.Finish? && t in s'.threads {
      assert s'.threads[t].rest == th.rest;
      assert ListCovers(th.rest, want) ==> CarriedBy(s', t, path, want);
    }
  }

  ghost predicate ServedAfter(tr: seq<Label>, i: nat, path: Path, want: Rerun) {
    exists j :: i < j < |tr| && Serves(tr[j], path, want)
  }

  /** Something that covers `want` waited after the first `k` steps. */
  ghost predicate PendingAt(tr: seq<Label>, k: nat, path: Path, want: Rerun) {
    k <= |tr| && Run(tr[..k]) && Pending(After(tr[..k]), path, want)
  }

  /** Step `j` dropped the last thing that covered `want`: something did until
      then, and nothing has since. */
  ghost predicate LastDropped(tr: seq<Label>, j: nat, path: Path, want: Rerun) {
    && j < |tr| && Drops(tr[j], path, want) && PendingAt(tr, j, path, want)
    && forall k: nat :: j < k <= |tr| ==> !PendingAt(tr, k, path, want)
  }

  /** A replayer dropped the last of it, at a moment when a teardown of the path
      was marked. */
  ghost predicate TornDownAfter(tr: seq<Label>, i: nat, path: Path, want: Rerun) {
    exists j: nat :: i < j && LastDropped(tr, j, path, want) && tr[j].Discard? && path in After(tr[..j]).marks
  }

  /** The last of it stood behind a run whose panic took its goroutine down. */
  ghost predicate PanickedAfter(tr: seq<Label>, i: nat, path: Path, want: Rerun) {
    exists j: nat :: i < j && LastDropped(tr, j, path, want) && !tr[j].Discard?
  }

  ghost predicate Accounted(tr: seq<Label>, i: nat, path: Path, want: Rerun)
    requires Run(tr)
  {
    || ServedAfter(tr, i, path, want)
    || Pending(After(tr), path, want)
    || TornDownAfter(tr, i, path, want)
    || PanickedAfter(tr, i, path, want)
  }

  lemma DispatchedIsPending(tr: seq<Label>, i: nat, want: Rerun)
    requires Run(tr) && i < |tr| && tr[i].Dispatch? && want in tr[i].reqs
    ensures PendingAt(tr, i + 1, tr[i].path, want)
  {
    RunStep(tr, i);
    var l := tr[i];
    var k :| 0 <= k < |l.reqs| && l.reqs[k] == want;
    assert Covers(l.reqs[k], want);
    assert CarriedBy(After(tr[..i + 1]), l.t, l.path, want);
  }

  /** Where nothing waits any more, the last step before that served or dropped. */
  lemma PendingEnds(tr: seq<Label>, j: nat, path: Path, want: Rerun)
    requires Run(tr) && j < |tr| && PendingAt(tr, j, path, want) && !PendingAt(tr, j + 1, path, want)
    ensures Serves(tr[j], path, want) || Drops(tr[j], path, want)
    ensures tr[j].Discard? ==> tr[j].path in After(tr[..j]).marks
  {
    RunStep(tr, j);
    Exclusion(tr[..j]);
    PendingStep(After(tr[..j]), tr[j], path, want);
  }

  /** No change is lost, in any interleaving: a dispatched watch or HEAD
      request has been covered by a run that took the slot after it was
      dispatched, or is still pending, or the last thing that covered it was
      discarded while a teardown of its path was marked, or fell with a panicking
      run. */
  lemma NoLostChange(tr: seq<Label>, i: nat, want: Rerun)
    requires Run(tr) && i < |tr| && tr[i].Dispatch? && want in tr[i].reqs
    ensures Accounted(tr, i, tr[i].path, want)
  {
    var path := tr[i].path;
    DispatchedIsPending(tr, i, want);
    var waits := (k: nat) => PendingAt(tr, k, path, want);
    var j := LastWhere(waits, i + 1, |tr|);
    forall k: nat | j < k <= |tr| ensures !PendingAt(tr, k, path, want) {
      assert !waits(k);
    }
    if j == |tr| {
      assert tr[..j] == tr;
    } else {
      PendingEnds(tr, j, path, want);
      assert !Serves(tr[j], path, want) ==> LastDropped(tr, j, path, want);
    }
  }
}
