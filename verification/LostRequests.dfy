/** Which watch and HEAD requests a panic can lose (internal/daemon/finalize.go,
    internal/daemon/state.go).

    A run that panics takes the rest of its goroutine's list down with it. A
    request is exposed to that when it can come to stand behind another one, in
    its own event's list or, after it was queued, in the list a release hands to
    a replayer, which is ordered by database index. */
module LostRequests {
  import opened Prelude
  import opened FinalizeSlots
  import opened FinalizeProtocol
  import opened PendingRequests
  import opened RequestOrigins

  // ------------------------------------------------------- without any panic

  ghost predicate NoPanics(tr: seq<Label>) {
    forall j :: 0 <= j < |tr| ==> !tr[j].LockPanic? && !(tr[j].End? && tr[j].panicked)
  }

  predicate Panicking(pc: Pc) {
    pc.Unwinding? || (pc.Returning? && pc.panicked)
  }

  lemma NobodyPanicsStep(s: State, l: Label, t: Tid)
    requires Enabled(s, l) && !l.LockPanic? && !(l.End? && l.panicked) && t in Apply(s, l).threads
    requires t in s.threads ==> !Panicking(s.threads[t].pc)
    ensures !Panicking(Apply(s, l).threads[t].pc)
  {
    if t != l.t {
      OthersStay(s, l, t);
    }
  }

  lemma {:induction false} NobodyPanics(tr: seq<Label>)
    requires Run(tr) && NoPanics(tr)
    ensures forall t :: t in After(tr).threads ==> !Panicking(After(tr).threads[t].pc)
  {
    if tr != [] {
      var front, l := tr[..|tr| - 1], tr[|tr| - 1];
      assert NoPanics(front);
      NobodyPanics(front);
      forall t | t in After(tr).threads ensures !Panicking(After(tr).threads[t].pc) {
        NobodyPanicsStep(After(front), l, t);
      }
    }
  }

  /** Without a panic nothing is lost but to a teardown. */
  lemma NoPanicNoLoss(tr: seq<Label>, i: nat, want: Rerun)
    requires Run(tr) && NoPanics(tr) && i < |tr| && tr[i].Dispatch? && want in tr[i].reqs
    ensures || ServedAfter(tr, i, tr[i].path, want)
            || Pending(After(tr), tr[i].path, want)
            || TornDownAfter(tr, i, tr[i].path, want)
  {
    NoLostChange(tr, i, want);
    forall j | 0 <= j < |tr| ensures !tr[j].Unwind? && !tr[j].LockPanic? {
      RunStep(tr, j);
      NobodyPanics(tr[..j]);
    }
  }

  // ------------------------------------------------------- guarded requests

  /** A request that every replay list has in front: HEAD stands alone, ALL
      shares its queue with nothing, and no index is below 0. */
  predicate FirstInLine(r: Rerun) {
    r.Head? || r.watch.dbIndex == ALL || r.watch.dbIndex == 0
  }

  ghost predicate GuardedBy(reqs: seq<Rerun>, want: Rerun, m: int) {
    && 0 <= m < |reqs| && FirstInLine(reqs[m])
    && forall j :: 0 <= j <= m ==> Covers(reqs[j], want)
  }

  /** Some request of the event that covers `want` is first in line wherever it
      is queued, and every request before it covers `want` too. */
  ghost predicate Guarded(reqs: seq<Rerun>, want: Rerun) {
    exists m :: GuardedBy(reqs, want, m)
  }

  lemma GuardedTail(reqs: seq<Rerun>, want: Rerun)
    requires reqs != []
    ensures Guarded(reqs, want) <==>
              Covers(reqs[0], want) && (FirstInLine(reqs[0]) || Guarded(reqs[1..], want))
  {
    var rest := reqs[1..];
    if m :| GuardedBy(reqs, want, m) {
      if m > 0 {
        assert GuardedBy(rest, want, m - 1) by {
          forall j | 0 <= j <= m - 1 ensures Covers(rest[j], want) {
            assert rest[j] == reqs[j + 1];
          }
        }
      }
    }
    if Covers(reqs[0], want) && FirstInLine(reqs[0]) {
      assert GuardedBy(reqs, want, 0);
    }
    if m :| Covers(reqs[0], want) && GuardedBy(rest, want, m) {
      assert GuardedBy(reqs, want, m + 1) by {
        forall j | 0 <= j <= m + 1 ensures Covers(reqs[j], want) {
          assert j > 0 ==> reqs[j] == rest[j - 1];
        }
      }
    }
  }

  lemma GuardedIsCovered(reqs: seq<Rerun>, want: Rerun)
    requires Guarded(reqs, want)
    ensures ListCovers(reqs, want)
  {
    var m :| GuardedBy(reqs, want, m);
    assert Covers(reqs[m], want);
  }

  // ---------------------------------------------------- guarded in the queues

  /** The queue holds something first in line that covers `want`. */
  ghost predicate EntryGuards(e: Entry, want: Rerun) {
    || e.headRerun.Some?
    || (want.Watch? && ALL in e.watchReruns)
    || (want.Watch? && want.watch.dbIndex == 0 && 0 in e.watchReruns)
  }

  ghost predicate EntryIndexed(e: Entry) {
    forall k :: k in e.watchReruns ==> ALL <= k
  }

  lemma EnqueueGuards(e: Entry, r: Rerun, want: Rerun)
    requires EntryGuards(e, want) || (Covers(r, want) && FirstInLine(r))
    ensures EntryGuards(Enqueue(e, r), want)
  {
  }

  /** The least index is replayed first. */
  lemma LeastIsFirst(m: map<int, WatchRerun>, k: int)
    requires forall j :: j in m ==> m[j].dbIndex == j
    requires k in m && forall j :: j in m ==> k <= j
    ensures InKeyOrder(m) != [] && InKeyOrder(m)[0] == m[k]
  {
    InKeyOrderIsSorted(m);
    var rs := InKeyOrder(m);
    assert m[k] in rs;
    var i :| 0 <= i < |rs| && rs[i] == m[k];
    assert rs[0] in rs;
  }

  lemma FirstReplayed(e: Entry, k: int)
    requires WellKeyed(e) && e.headRerun.None? && k in e.watchReruns && forall j :: j in e.watchReruns ==> k <= j
    ensures ReplayList(Handback(e)) != [] && ReplayList(Handback(e))[0] == Watch(e.watchReruns[k])
  {
    LeastIsFirst(e.watchReruns, k);
  }

  lemma HandbackGuards(e: Entry, want: Rerun)
    requires WellKeyed(e) && EntryIndexed(e) && EntryGuards(e, want)
    ensures Guarded(ReplayList(Handback(e)), want)
  {
    if e.headRerun.None? {
      FirstReplayed(e, if ALL in e.watchReruns then ALL else 0);
    }
    assert GuardedBy(ReplayList(Handback(e)), want, 0);
  }

  // ------------------------------------------------------ every index is valid

  ghost predicate AllIndexed(s: State) {
    forall path :: path in s.slots ==> WellKeyed(s.slots[path]) && EntryIndexed(s.slots[path])
  }

  lemma {:induction false} IndexedRequests(tr: seq<Label>)
    requires Run(tr)
    ensures AllOf(After(tr), (path, r) => Indexed(r))
  {
    if tr != [] {
      IndexedRequests(tr[..|tr| - 1]);
      AllOfStep(After(tr[..|tr| - 1]), tr[|tr| - 1], (path, r) => Indexed(r));
    }
  }

  lemma AlwaysIndexed(tr: seq<Label>)
    requires Run(tr)
    ensures AllIndexed(After(tr))
  {
    IndexedRequests(tr);
    var s := After(tr);
    forall path | path in s.slots ensures WellKeyed(s.slots[path]) && EntryIndexed(s.slots[path]) {
      assert EntryOf(path, s.slots[path], (path, r) => Indexed(r));
      forall k | k in s.slots[path].watchReruns ensures ALL <= k {
        assert Indexed(Watch(s.slots[path].watchReruns[k]));
      }
    }
  }

  // ------------------------------------------------- a guarded request is kept

  ghost predicate ThreadGuards(th: Thread, want: Rerun) {
    || (th.pc == Between && Guarded(th.rest, want))
    || (th.pc.AtClaim? && Covers(th.pc.req, want) && (FirstInLine(th.pc.req) || Guarded(th.rest, want)))
  }

  ghost predicate GuardedIn(s: State, t: Tid, path: Path, want: Rerun) {
    t in s.threads && s.threads[t].path == path && ThreadGuards(s.threads[t], want)
  }

  /** `want` waits where no panic reaches it. */
  ghost predicate SafelyPending(s: State, path: Path, want: Rerun) {
    || (path in s.slots && EntryGuards(s.slots[path], want))
    || (exists t :: GuardedIn(s, t, path, want))
  }

  lemma SafelyPendingIsPending(s: State, path: Path, want: Rerun)
    requires SafelyPending(s, path, want)
    ensures Pending(s, path, want)
  {
    if path in s.slots && EntryGuards(s.slots[path], want) {
      var e := s.slots[path];
      if e.headRerun.None? {
        var k := if ALL in e.watchReruns then ALL else 0;
        assert k in e.watchReruns && CoversIndex(k, want.watch.dbIndex);
      }
    } else {
      var t :| GuardedIn(s, t, path, want);
      var th := s.threads[t];
      if th.pc == Between {
        GuardedIsCovered(th.rest, want);
      }
      assert CarriedBy(s, t, path, want);
    }
  }

  lemma QueueGuards(s: State, l: Label, path: Path, want: Rerun)
    requires AllIndexed(s) && Enabled(s, l) && path in s.slots && EntryGuards(s.slots[path], want)
    ensures SafelyPending(Apply(s, l), path, want)
  {
    SlotStep(s, l, path);
    if Frees(l, path) {
      HandbackGuards(s.slots[path], want);
      FreedReplays(s, l, want);
    } else if l.Queue? && l.path == path {
      EnqueueGuards(s.slots[path], l.req, want);
    }
  }

  lemma FreedReplays(s: State, l: Label, want: Rerun)
    requires Enabled(s, l) && (l.Release? || l.LockError?) && Guarded(Replayed(s, l.path), want)
    ensures GuardedIn(Apply(s, l), l.replayer, l.path, want)
  {
    GuardedIsCovered(Replayed(s, l.path), want);
  }

  lemma ThreadGuardsOn(s: State, l: Label, path: Path, want: Rerun)
    requires Enabled(s, l) && GuardedIn(s, l.t, path, want)
    ensures || SafelyPending(Apply(s, l), path, want)
            || Serves(l, path, want)
            || (l.Discard? && Drops(l, path, want))
            || GuardedIn(Apply(s, l), l.t, path, want)
  {
    var th := s.threads[l.t];
    if th.pc == Between {
      GuardedIsCovered(th.rest, want);
      GuardedTail(th.rest, want);
    } else if l.Queue? && FirstInLine(l.req) {
      EnqueueGuards(s.slots[path], l.req, want);
    }
  }

  lemma SafeStep(s: State, l: Label, path: Path, want: Rerun)
    requires AllIndexed(s) && Enabled(s, l) && SafelyPending(s, path, want)
    ensures || SafelyPending(Apply(s, l), path, want)
            || Serves(l, path, want)
            || (l.Discard? && Drops(l, path, want))
  {
    if path in s.slots && EntryGuards(s.slots[path], want) {
      QueueGuards(s, l, path, want);
    } else {
      var t :| GuardedIn(s, t, path, want);
      if t == l.t {
        ThreadGuardsOn(s, l, path, want);
      } else {
        OthersStay(s, l, t);
        assert GuardedIn(Apply(s, l), t, path, want);
      }
    }
  }

  ghost predicate SafeAt(tr: seq<Label>, k: nat, path: Path, want: Rerun) {
    k <= |tr| && Run(tr[..k]) && SafelyPending(After(tr[..k]), path, want)
  }

  /** Step `j` was a replayer's, while a teardown of the path was marked, and
      discarded the last of what held `want` safely. */
  ghost predicate LastDiscarded(tr: seq<Label>, j: nat, path: Path, want: Rerun) {
    && j < |tr| && tr[j].Discard? && Drops(tr[j], path, want)
    && SafeAt(tr, j, path, want) && path in After(tr[..j]).marks
    && forall k: nat :: j < k <= |tr| ==> !SafeAt(tr, k, path, want)
  }

  /** Served after it was dispatched, still waiting, or torn down. */
  ghost predicate Kept(tr: seq<Label>, i: nat, path: Path, want: Rerun)
    requires Run(tr)
  {
    || ServedAfter(tr, i, path, want)
    || Pending(After(tr), path, want)
    || (exists j: nat :: i < j && LastDiscarded(tr, j, path, want))
  }

  lemma GuardedIsSafe(tr: seq<Label>, i: nat, want: Rerun)
    requires Run(tr) && i < |tr| && tr[i].Dispatch? && Guarded(tr[i].reqs, want)
    ensures SafeAt(tr, i + 1, tr[i].path, want)
  {
    RunStep(tr, i);
    assert GuardedIn(After(tr[..i + 1]), tr[i].t, tr[i].path, want);
  }

  lemma SafetyEnds(tr: seq<Label>, j: nat, path: Path, want: Rerun)
    requires Run(tr) && j < |tr| && SafeAt(tr, j, path, want) && !SafeAt(tr, j + 1, path, want)
    ensures Serves(tr[j], path, want) || (tr[j].Discard? && Drops(tr[j], path, want) && path in After(tr[..j]).marks)
  {
    RunStep(tr, j);
    AlwaysIndexed(tr[..j]);
    SafeStep(After(tr[..j]), tr[j], path, want);
  }

  /** A guarded request is kept in every run; as long as it waits, it waits where
      no panic reaches it. */
  lemma GuardedIsKept(tr: seq<Label>, i: nat, want: Rerun)
    requires Run(tr) && i < |tr| && tr[i].Dispatch? && Guarded(tr[i].reqs, want)
    ensures Kept(tr, i, tr[i].path, want)
    ensures || ServedAfter(tr, i, tr[i].path, want)
            || SafelyPending(After(tr), tr[i].path, want)
            || (exists j: nat :: i < j && LastDiscarded(tr, j, tr[i].path, want))
  {
    var path := tr[i].path;
    GuardedIsSafe(tr, i, want);
    var waits := (k: nat) => SafeAt(tr, k, path, want);
    var j := LastWhere(waits, i + 1, |tr|);
    forall k: nat | j < k <= |tr| ensures !SafeAt(tr, k, path, want) {
      assert !waits(k);
    }
    if j == |tr| {
      assert tr[..j] == tr;
      SafelyPendingIsPending(After(tr), path, want);
    } else {
      SafetyEnds(tr, j, path, want);
      assert !Serves(tr[j], path, want) ==> LastDiscarded(tr, j, path, want);
    }
  }

  /** A HEAD change is never lost to a panic. */
  lemma HeadIsNeverLost(tr: seq<Label>, i: nat, want: Rerun)
    requires Run(tr) && want.Head? && i < |tr| && tr[i].Dispatch? && want in tr[i].reqs
    ensures Kept(tr, i, tr[i].path, want)
  {
    RunStep(tr, i);
    assert GuardedBy(tr[i].reqs, want, 0);
    GuardedIsKept(tr, i, want);
  }

  // --------------------------------------------- an unguarded one can be lost

  /** The step neither serves `want` nor discards anything. */
  ghost predicate Harmless(l: Label, path: Path, want: Rerun) {
    !Serves(l, path, want) && !l.Discard?
  }

  /** A run that has come to state `s`, whose steps after `i` were harmless. */
  ghost predicate Reached(tr: seq<Label>, i: nat, s: State, path: Path, want: Rerun) {
    && i < |tr| && Exec(tr) == Some(s)
    && forall j :: i < j < |tr| ==> Harmless(tr[j], path, want)
  }

  lemma Play(tr: seq<Label>, i: nat, s: State, l: Label, path: Path, want: Rerun) returns (next: seq<Label>)
    requires Reached(tr, i, s, path, want) && Enabled(s, l) && Harmless(l, path, want)
    ensures tr <= next && Reached(next, i, Apply(s, l), path, want)
  {
    next := ExecSnoc(tr, s, l);
    assert forall j :: 0 <= j < |tr| ==> next[j] == tr[j];
  }

  /** Goroutine `t` takes its next request and the free slot. */
  lemma Start(tr: seq<Label>, i: nat, s: State, t: Tid, path: Path, want: Rerun) returns (next: seq<Label>)
    requires Reached(tr, i, s, path, want) && At(s, t, path, Between) && path !in s.slots && path !in s.marks
    requires s.threads[t].rest != [] && !Covers(s.threads[t].rest[0], want)
    ensures tr <= next
    ensures Reached(next, i, State(s.slots[path := IDLE], s.marks,
                                   s.threads[t := s.threads[t].(pc := Holding, rest := s.threads[t].rest[1..])],
                                   s.tearing), path, want)
  {
    var th := s.threads[t];
    next := Play(tr, i, s, Next(t), path, want);
    var s1 := Apply(s, Next(t));
    next := Play(next, i, s1, Claim(t, path, th.rest[0]), path, want);
    var s2 := Apply(s1, Claim(t, path, th.rest[0]));
    next := Play(next, i, s2, LockTaken(t), path, want);
    assert Apply(s2, LockTaken(t)).threads == s.threads[t := th.(pc := Holding, rest := th.rest[1..])];
  }

  lemma FreedFrom(s: State, t: Tid, path: Path, pc: Pc, freed: Pc, r: Tid)
    requires t in s.threads && path in s.slots
    ensures Freed(Goto(s, t, pc), t, path, freed, r) == Freed(s, t, path, freed, r)
  {
    assert Goto(Goto(s, t, pc), t, freed).threads == Goto(s, t, freed).threads;
  }

  /** Its run ends and the deferred release runs. */
  lemma ReleaseSlot(tr: seq<Label>, i: nat, s: State, t: Tid, panicked: bool, r: Tid, path: Path, want: Rerun)
    returns (next: seq<Label>)
    requires Reached(tr, i, s, path, want) && At(s, t, path, Holding) && Fresh(s, r) && path in s.slots
    ensures tr <= next
    ensures Reached(next, i, Freed(s, t, path, if panicked then Unwinding else Between, r), path, want)
  {
    next := Play(tr, i, s, End(t, panicked), path, want);
    var s1 := Goto(s, t, Returning(panicked));
    next := Play(next, i, s1, Release(t, path, r), path, want);
    FreedFrom(s, t, path, Returning(panicked), if panicked then Unwinding else Between, r);
  }

  /** The run panics, nothing is queued on it, and the goroutine is gone. */
  lemma Crash(tr: seq<Label>, i: nat, s: State, t: Tid, unused: Tid, path: Path, want: Rerun)
    returns (next: seq<Label>)
    requires Reached(tr, i, s, path, want) && At(s, t, path, Holding) && Fresh(s, unused)
    requires path in s.slots && s.slots[path] == IDLE
    ensures tr <= next
    ensures Reached(next, i, State(s.slots - {path}, s.marks, s.threads - {t}, s.tearing), path, want)
  {
    next := ReleaseSlot(tr, i, s, t, true, unused, path, want);
    assert Replayed(s, path) == [];
    var s1 := Goto(s, t, Unwinding).(slots := s.slots - {path});
    next := Play(next, i, s1, Unwind(t, path, s.threads[t].rest), path, want);
    assert s1.threads - {t} == s.threads - {t};
  }

  /** The run returns, its goroutine has nothing left to do, and what was queued
      goes to replayer `r`. */
  lemma Return(tr: seq<Label>, i: nat, s: State, t: Tid, r: Tid, path: Path, want: Rerun)
    returns (next: seq<Label>)
    requires Reached(tr, i, s, path, want) && At(s, t, path, Holding) && Fresh(s, r) && s.threads[t].rest == []
    requires path in s.slots && Replayed(s, path) != []
    ensures tr <= next
    ensures Reached(next, i, State(s.slots - {path}, s.marks,
                                   (s.threads - {t})[r := Thread(path, true, Between, Replayed(s, path))],
                                   s.tearing), path, want)
  {
    next := ReleaseSlot(tr, i, s, t, false, r, path, want);
    var s1 := Freed(s, t, path, Between, r);
    next := Play(next, i, s1, Finish(t), path, want);
    assert s1.threads - {t} == (s.threads - {t})[r := Thread(path, true, Between, Replayed(s, path))];
  }

  /** A goroutine is lost to a panic in its next request, which does not cover
      `want`. */
  lemma Kill(tr: seq<Label>, i: nat, s: State, t: Tid, unused: Tid, path: Path, want: Rerun)
    returns (next: seq<Label>)
    requires Reached(tr, i, s, path, want) && At(s, t, path, Between) && path !in s.slots && path !in s.marks
    requires s.threads[t].rest != [] && !Covers(s.threads[t].rest[0], want) && Fresh(s, unused)
    ensures tr <= next && Reached(next, i, s.(threads := s.threads - {t}), path, want)
  {
    next := Start(tr, i, s, t, path, want);
    var th := s.threads[t].(pc := Holding, rest := s.threads[t].rest[1..]);
    var s1 := State(s.slots[path := IDLE], s.marks, s.threads[t := th], s.tearing);
    next := Crash(next, i, s1, t, unused, path, want);
    assert s1.threads - {t} == s.threads - {t} && s1.slots - {path} == s.slots;
  }

  const ZERO := WatchRerun("", 0, map[], "")

  /** Database 0's change waits behind a finalize that an RPC started. */
  function Busy(path: Path): State {
    State(map[path := Entry(map[0 := ZERO], None)], {}, map[0 := Thread(path, false, Holding, [])], map[])
  }

  lemma RpcHolds(path: Path) returns (tr: seq<Label>)
    ensures tr != []
    ensures Exec(tr) == Some(State(map[path := IDLE], {}, map[0 := Thread(path, false, Holding, [])], map[]))
  {
    tr := ExecSnoc([], START, Rpc(0, path));
    var s1 := State(map[], {}, map[0 := Thread(path, false, AtPlain, [])], map[]);
    tr := ExecSnoc(tr, s1, PlainClaim(0, path));
    var s2 := State(map[path := IDLE], {}, map[0 := Thread(path, false, AtLock, [])], map[]);
    assert Apply(s1, PlainClaim(0, path)) == s2;
    tr := ExecSnoc(tr, s2, LockTaken(0));
    assert Apply(s2, LockTaken(0)).threads == map[0 := Thread(path, false, Holding, [])];
  }

  lemma GetBusy(path: Path) returns (tr: seq<Label>)
    ensures Exec(tr) == Some(Busy(path))
  {
    tr := RpcHolds(path);
    var i, want := |tr| - 1, Watch(ZERO);
    var holder, other := Thread(path, false, Holding, []), Thread(path, false, Between, [want]);
    var s := State(map[path := IDLE], {}, map[0 := holder], map[]);
    tr := Play(tr, i, s, Dispatch(1, path, [want]), path, want);
    var s1 := s.(threads := s.threads[1 := other]);
    tr := QueueOne(tr, i, s1, 1, map[], path, want);
    tr := LeaveBusy(tr, i, path);
  }

  lemma LeaveBusy(tr: seq<Label>, i: nat, path: Path) returns (next: seq<Label>)
    requires var want, holder := Watch(ZERO), Thread(path, false, Holding, []);
             var other := Thread(path, false, Between, [want]);
             Reached(tr, i, State(map[path := IDLE][path := Entry(map[][0 := ZERO], None)], {},
                                  map[0 := holder][1 := other][1 := other.(rest := [want][1..])], map[]), path, want)
    ensures Exec(next) == Some(Busy(path))
  {
    var s := Exec(tr).value;
    assert [Watch(ZERO)][1..] == [];
    next := ExecSnoc(tr, s, Finish(1));
    assert s.threads - {1} == map[0 := Thread(path, false, Holding, [])];
    assert s.slots == map[path := Entry(map[0 := ZERO], None)];
  }

  /** One more request for database `d` is queued. */
  lemma QueueOne(tr: seq<Label>, i: nat, s: State, t: Tid, m: map<int, WatchRerun>, path: Path, want: Rerun)
    returns (next: seq<Label>)
    requires Reached(tr, i, s, path, want) && At(s, t, path, Between) && !s.threads[t].replays
    requires s.threads[t].rest != [] && s.threads[t].rest[0].Watch? && s.threads[t].rest[0].watch.dbIndex != ALL
    requires path in s.slots && s.slots[path] == Entry(m, None) && ALL !in m
    ensures tr <= next
    ensures var w, rest := s.threads[t].rest[0].watch, s.threads[t].rest[1..];
            Reached(next, i, State(s.slots[path := Entry(m[w.dbIndex := w], None)], s.marks,
                                   s.threads[t := s.threads[t].(rest := rest)], s.tearing), path, want)
  {
    var th := s.threads[t];
    next := Play(tr, i, s, Next(t), path, want);
    var s1 := Apply(s, Next(t));
    next := Play(next, i, s1, Queue(t, path, th.rest[0]), path, want);
    assert Apply(s1, Queue(t, path, th.rest[0])).threads == s.threads[t := th.(rest := th.rest[1..])];
  }

  ghost predicate SameIndex(reqs: seq<Rerun>, n: nat, d: int) {
    n <= |reqs| && forall j :: 0 <= j < n ==> reqs[j].Watch? && reqs[j].watch.dbIndex == d
  }

  /** The first `n` requests of goroutine `t`, all for database `d`, are queued. */
  lemma {:induction false} QueueMany(
    tr: seq<Label>, i: nat, s: State, t: Tid, n: nat, d: int, m: map<int, WatchRerun>, path: Path, want: Rerun)
    returns (next: seq<Label>, w: WatchRerun)
    requires Reached(tr, i, s, path, want) && At(s, t, path, Between) && !s.threads[t].replays
    requires n > 0 && SameIndex(s.threads[t].rest, n, d) && d != ALL
    requires path in s.slots && s.slots[path] == Entry(m, None) && ALL !in m
    ensures tr <= next && w.dbIndex == d
    ensures Reached(next, i, State(s.slots[path := Entry(m[d := w], None)], s.marks,
                                   s.threads[t := s.threads[t].(rest := s.threads[t].rest[n..])],
                                   s.tearing), path, want)
    decreases n
  {
    var rest := s.threads[t].rest;
    next := QueueOne(tr, i, s, t, m, path, want);
    w := rest[0].watch;
    if n > 1 {
      var s1 := State(s.slots[path := Entry(m[d := w], None)], s.marks,
                      s.threads[t := s.threads[t].(rest := rest[1..])], s.tearing);
      var w1;
      next, w1 := QueueMany(next, i, s1, t, n - 1, d, m[d := w], path, want);
      assert m[d := w][d := w1] == m[d := w1] && rest[1..][n - 1..] == rest[n..];
      QueuedTwice(s, path, t, Entry(m[d := w], None), Entry(m[d := w1], None), rest[1..], rest[n..]);
      w := w1;
    }
  }

  lemma QueuedTwice(s: State, path: Path, t: Tid, e: Entry, e': Entry, rest: seq<Rerun>, rest': seq<Rerun>)
    requires t in s.threads
    ensures var th := s.threads[t];
            && s.slots[path := e][path := e'] == s.slots[path := e']
            && s.threads[t := th.(rest := rest)][t := th.(rest := rest).(rest := rest')]
               == s.threads[t := th.(rest := rest')]
  {
  }

  /** Goroutine 1 has queued its requests for database `d` behind database 0's on
      the slot goroutine 0 holds. */
  function Queued(path: Path, d: int, w: WatchRerun, rest: seq<Rerun>): State {
    State(map[path := Entry(map[0 := ZERO, d := w], None)], {},
          map[0 := Thread(path, false, Holding, []), 1 := Thread(path, false, Between, rest)], map[])
  }

  /** The holder releases: a replayer gets database 0's rerun first. */
  lemma HandOver(tr: seq<Label>, i: nat, d: int, w: WatchRerun, rest: seq<Rerun>, path: Path, want: Rerun)
    returns (next: seq<Label>, list: seq<Rerun>)
    requires d > 0 && w.dbIndex == d && Reached(tr, i, Queued(path, d, w, rest), path, want)
    ensures tr <= next && list != [] && list[0] == Watch(ZERO)
    ensures Reached(next, i, State(map[], {}, map[1 := Thread(path, false, Between, rest),
                                                  2 := Thread(path, true, Between, list)], map[]), path, want)
  {
    var s := Queued(path, d, w, rest);
    list := Replayed(s, path);
    ZeroIsFirst(d, w);
    next := Return(tr, i, s, 0, 2, path, want);
    HandedOver(path, rest, list);
  }

  lemma ZeroIsFirst(d: int, w: WatchRerun)
    requires d > 0 && w.dbIndex == d
    ensures var list := ReplayList(Handback(Entry(map[0 := ZERO, d := w], None)));
            list != [] && list[0] == Watch(ZERO)
  {
    FirstReplayed(Entry(map[0 := ZERO, d := w], None), 0);
  }

  lemma HandedOver(path: Path, rest: seq<Rerun>, list: seq<Rerun>)
    ensures var holder, th := Thread(path, false, Holding, []), Thread(path, false, Between, rest);
            (map[0 := holder, 1 := th] - {0})[2 := Thread(path, true, Between, list)]
            == map[1 := th, 2 := Thread(path, true, Between, list)]
  {
  }

  /** The event's leading requests for database `d` are queued, ... */
  lemma QueueLeading(path: Path, reqs: seq<Rerun>, want: Rerun, n: nat, d: int)
    returns (tr: seq<Label>, i: nat, w: WatchRerun)
    requires OneEvent(reqs) && n > 0 && d > 0 && SameIndex(reqs, n, d)
    ensures w.dbIndex == d && Reached(tr, i, Queued(path, d, w, reqs[n..]), path, want)
    ensures tr[i] == Dispatch(1, path, reqs)
  {
    tr := GetBusy(path);
    i := |tr|;
    var s, th := Busy(path), Thread(path, false, Between, reqs);
    tr := ExecSnoc(tr, s, Dispatch(1, path, reqs));
    var s1 := s.(threads := map[0 := Thread(path, false, Holding, []), 1 := th]);
    assert Apply(s, Dispatch(1, path, reqs)).threads == s1.threads;
    var next;
    next, w := QueueMany(tr, i, s1, 1, n, d, map[0 := ZERO], path, want);
    assert next[i] == tr[i];
    tr := next;
    QueuedState(path, d, w, reqs, reqs[n..]);
  }

  lemma QueuedState(path: Path, d: int, w: WatchRerun, reqs: seq<Rerun>, rest: seq<Rerun>)
    ensures var holder, th := Thread(path, false, Holding, []), Thread(path, false, Between, reqs);
            State(map[path := Entry(map[0 := ZERO], None)][path := Entry(map[0 := ZERO][d := w], None)], {},
                  map[0 := holder, 1 := th][1 := th.(rest := rest)], map[])
            == Queued(path, d, w, rest)
  {
    var holder, th := Thread(path, false, Holding, []), Thread(path, false, Between, reqs);
    assert map[0 := ZERO][d := w] == map[0 := ZERO, d := w];
    assert map[0 := holder, 1 := th][1 := th.(rest := rest)]
        == map[0 := holder, 1 := Thread(path, false, Between, rest)];
    var e, e' := Entry(map[0 := ZERO], None), Entry(map[0 := ZERO, d := w], None);
    assert map[path := e][path := e'] == map[path := e'];
  }

  /** ... their replayer dies in database 0's rerun, and the event's goroutine, if
      it has requests left, in the first of those. */
  lemma LoseQueued(path: Path, reqs: seq<Rerun>, want: Rerun, n: nat, d: int)
    returns (tr: seq<Label>, i: nat)
    requires OneEvent(reqs) && n > 0 && d > 0 && SameIndex(reqs, n, d)
    requires want.Watch? && want.watch.dbIndex == d && (n == |reqs| || !Covers(reqs[n], want))
    ensures Reached(tr, i, START, path, want) && tr[i] == Dispatch(1, path, reqs)
  {
    var w, list;
    tr, i, w := QueueLeading(path, reqs, want, n, d);
    ghost var first := tr;
    var rest := reqs[n..];
    tr, list := HandOver(tr, i, d, w, rest, path, want);
    var other := Thread(path, false, Between, rest);
    var s := State(map[], {}, map[1 := other, 2 := Thread(path, true, Between, list)], map[]);
    tr := Kill(tr, i, s, 2, 3, path, want);
    var s1 := State(map[], {}, map[1 := other], map[]);
    assert s.threads - {2} == s1.threads;
    if rest == [] {
      tr := Play(tr, i, s1, Finish(1), path, want);
    } else {
      tr := Kill(tr, i, s1, 1, 3, path, want);
    }
    assert s1.threads - {1} == map[];
    assert tr[i] == first[i];
  }

  lemma {:induction false} FirstUncovered(reqs: seq<Rerun>, want: Rerun) returns (n: nat)
    requires !Guarded(reqs, want)
    ensures n <= |reqs| && (n < |reqs| ==> !Covers(reqs[n], want))
    ensures forall j :: 0 <= j < n ==> Covers(reqs[j], want) && !FirstInLine(reqs[j])
  {
    if reqs == [] {
      n := 0;
    } else {
      GuardedTail(reqs, want);
      if Covers(reqs[0], want) {
        n := FirstUncovered(reqs[1..], want);
        n := n + 1;
        assert forall j :: 1 <= j < n ==> reqs[j] == reqs[1..][j - 1];
      } else {
        n := 0;
      }
    }
  }

  /** Not served, not waiting, and nothing discarded in a teardown since step `i`. */
  ghost predicate Lost(tr: seq<Label>, i: nat, path: Path, want: Rerun)
    requires Run(tr)
  {
    && !ServedAfter(tr, i, path, want) && !Pending(After(tr), path, want)
    && forall j :: i < j < |tr| ==> !tr[j].Discard?
  }

  lemma LostForGood(tr: seq<Label>, i: nat, path: Path, want: Rerun)
    requires Reached(tr, i, START, path, want)
    ensures Run(tr) && Lost(tr, i, path, want)
  {
  }

  lemma LostIsNotKept(tr: seq<Label>, i: nat, path: Path, want: Rerun)
    requires Run(tr) && Lost(tr, i, path, want)
    ensures !Kept(tr, i, path, want)
  {
  }

  /** The first request does not cover `want`, and its run panics. */
  lemma LoseFirst(path: Path, reqs: seq<Rerun>, want: Rerun) returns (tr: seq<Label>, i: nat)
    requires OneEvent(reqs) && reqs != [] && !Covers(reqs[0], want)
    ensures Reached(tr, i, START, path, want) && tr[i] == Dispatch(1, path, reqs)
  {
    tr := ExecSnoc([], START, Dispatch(1, path, reqs));
    i := 0;
    var s := State(map[], {}, map[1 := Thread(path, false, Between, reqs)], map[]);
    assert Reached(tr, i, s, path, want);
    ghost var first := tr;
    tr := Kill(tr, i, s, 1, 2, path, want);
    assert s.threads - {1} == map[] && tr[i] == first[i];
  }

  /** A request that is not guarded is lost in some run. */
  lemma UnguardedIsLost(path: Path, reqs: seq<Rerun>, want: Rerun) returns (tr: seq<Label>, i: nat)
    requires OneEvent(reqs) && want in reqs && !Guarded(reqs, want)
    ensures DispatchedAt(tr, i, path, reqs) && Lost(tr, i, path, want)
  {
    var n := FirstUncovered(reqs, want);
    if n == 0 {
      tr, i := LoseFirst(path, reqs, want);
    } else {
      var d := reqs[0].watch.dbIndex;
      assert Indexed(reqs[0]) && Covers(reqs[0], want);
      assert SameIndex(reqs, n, d);
      tr, i := LoseQueued(path, reqs, want, n, d);
    }
    LostForGood(tr, i, path, want);
  }

  /** The event was dispatched at step `i` of a run. */
  ghost predicate DispatchedAt(tr: seq<Label>, i: nat, path: Path, reqs: seq<Rerun>) {
    Run(tr) && i < |tr| && tr[i].Dispatch? && tr[i].path == path && tr[i].reqs == reqs
  }

  /** Exactly which requests are safe from panics: every run leaves a request of
      an event served, waiting or torn down if and only if some request of the
      event that covers it is for HEAD, all databases or database 0, and all
      requests before that one cover it too. */
  lemma KeptExactly(path: Path, reqs: seq<Rerun>, want: Rerun)
    requires OneEvent(reqs) && want in reqs
    ensures (forall tr: seq<Label>, i: nat :: DispatchedAt(tr, i, path, reqs) ==> Kept(tr, i, path, want))
       <==> Guarded(reqs, want)
  {
    if Guarded(reqs, want) {
      forall tr: seq<Label>, i: nat | DispatchedAt(tr, i, path, reqs) ensures Kept(tr, i, path, want) {
        GuardedIsKept(tr, i, want);
      }
    } else {
      var tr, i := UnguardedIsLost(path, reqs, want);
      LostIsNotKept(tr, i, path, want);
    }
  }
}
