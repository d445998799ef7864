/** How the finalize protocol comes to rest (internal/daemon/finalize.go): the
    daemon's own steps end, and what is left when no goroutine is. */
module Draining {
  import opened Prelude
  import opened MapSums
  import opened FinalizeSlots
  import opened FinalizeProtocol
  import opened PendingRequests

  /** Steps the daemon takes by itself: no new event, RPC or teardown. */
  predicate Internal(l: Label) {
    !l.Dispatch? && !l.Rpc? && !l.MarkTeardown? && !l.RefuseTeardown?
  }

  /** No goroutine is left, and so no mark is either. */
  ghost predicate Quiet(s: State) {
    |s.threads| == 0 && |s.tearing| == 0
  }

  function Waiting(th: Thread): nat {
    |th.rest| + if th.pc.AtClaim? || th.pc.AtPlain? then 1 else 0
  }

  function StepsLeft(th: Thread): nat {
    3 * |th.rest| + PcSteps(th.pc) + 1
  }

  function PcSteps(pc: Pc): nat {
    match pc
    case AtClaim(_) => 2
    case AtPlain => 2
    case AtLock => 3
    case Holding => 2
    case Returning(_) => 1
    case _ => 0
  }

  /** Unclaimed requests count twice, an occupied slot once: a claim turns the
      former into the latter and a release gives the latter up. */
  ghost function Demand(s: State): nat {
    2 * (Sum(s.threads, Waiting) + Sum(s.slots, QueueSize)) + |s.slots|
  }

  ghost function Effort(s: State): nat {
    Sum(s.threads, StepsLeft) + |s.tearing|
  }

  ghost predicate Closer(s': State, s: State) {
    Demand(s') < Demand(s) || (Demand(s') == Demand(s) && Effort(s') < Effort(s))
  }

  lemma RemovedSize<K, V>(m: map<K, V>, k: K)
    requires k in m
    ensures |m - {k}| == |m| - 1
  {
    assert (m - {k}).Keys == m.Keys - {k};
  }

  lemma ThreadLeaves(s: State, t: Tid)
    requires t in s.threads
    ensures var s' := s.(threads := s.threads - {t});
            Demand(s') <= Demand(s) && Effort(s') < Effort(s)
  {
    SumRemove(s.threads, t, Waiting);
    SumRemove(s.threads, t, StepsLeft);
  }

  lemma SlotTaken(s: State, path: Path)
    requires path !in s.slots
    ensures Sum(s.slots[path := IDLE], QueueSize) == Sum(s.slots, QueueSize)
    ensures |s.slots[path := IDLE]| == |s.slots| + 1
  {
    SumUpdate(s.slots, path, IDLE, QueueSize);
    assert s.slots[path := IDLE].Keys == s.slots.Keys + {path};
  }

  lemma SlotFreed(s: State, path: Path)
    requires path in s.slots && WellKeyed(s.slots[path])
    ensures Sum(s.slots - {path}, QueueSize) + |Replayed(s, path)| <= Sum(s.slots, QueueSize)
    ensures |s.slots - {path}| == |s.slots| - 1
  {
    SumRemove(s.slots, path, QueueSize);
    HandbackSize(s.slots[path]);
    RemovedSize(s.slots, path);
  }

  /** Claiming a free slot. */
  lemma ClaimCloser(s: State, t: Tid, path: Path)
    requires t in s.threads && (s.threads[t].pc.AtClaim? || s.threads[t].pc.AtPlain?) && path !in s.slots
    ensures Demand(Goto(s, t, AtLock).(slots := s.slots[path := IDLE])) < Demand(s)
  {
    SumUpdate(s.threads, t, s.threads[t].(pc := AtLock), Waiting);
    SlotTaken(s, path);
  }

  lemma QueueCloser(s: State, l: Label)
    requires l.Queue? && Enabled(s, l)
    ensures Closer(Apply(s, l), s)
  {
    var th := s.threads[l.t].(pc := Between);
    SumUpdate(s.threads, l.t, th, Waiting);
    SumUpdate(s.threads, l.t, th, StepsLeft);
    SumUpdate(s.slots, l.path, Enqueue(s.slots[l.path], l.req), QueueSize);
    EnqueueSize(s.slots[l.path], l.req);
    assert s.slots[l.path := Enqueue(s.slots[l.path], l.req)].Keys == s.slots.Keys;
  }

  lemma ReplayerWaits(s: State, t: Tid, path: Path, pc: Pc, replayer: Tid)
    requires t in s.threads && path in s.slots && Owning(s.threads[t].pc) && (pc == Between || pc == Unwinding)
    requires Fresh(s, replayer)
    ensures Sum(Freed(s, t, path, pc, replayer).threads, Waiting) == Sum(s.threads, Waiting) + |Replayed(s, path)|
  {
    var th := s.threads[t].(pc := pc);
    SumUpdate(s.threads, t, th, Waiting);
    SumUpdate(s.threads[t := th], replayer, Thread(path, true, Between, Replayed(s, path)), Waiting);
  }

  lemma FreedCloser(s: State, t: Tid, path: Path, pc: Pc, replayer: Tid)
    requires t in s.threads && path in s.slots && Owning(s.threads[t].pc) && (pc == Between || pc == Unwinding)
    requires Fresh(s, replayer) && WellKeyed(s.slots[path])
    ensures Demand(Freed(s, t, path, pc, replayer)) < Demand(s)
  {
    ReplayerWaits(s, t, path, pc, replayer);
    SlotFreed(s, path);
  }

  /** Steps that only move their goroutine on. */
  lemma MoveCloser(s: State, t: Tid, pc: Pc)
    requires t in s.threads && Owning(s.threads[t].pc) && Owning(pc) && PcSteps(pc) < PcSteps(s.threads[t].pc)
    ensures Closer(Goto(s, t, pc), s)
  {
    SumUpdate(s.threads, t, s.threads[t].(pc := pc), Waiting);
    SumUpdate(s.threads, t, s.threads[t].(pc := pc), StepsLeft);
  }

  lemma NextCloser(s: State, t: Tid)
    requires Enabled(s, Next(t))
    ensures Closer(Apply(s, Next(t)), s)
  {
    var th := s.threads[t];
    SumUpdate(s.threads, t, th.(pc := AtClaim(th.rest[0]), rest := th.rest[1..]), Waiting);
    SumUpdate(s.threads, t, th.(pc := AtClaim(th.rest[0]), rest := th.rest[1..]), StepsLeft);
  }

  lemma DropCloser(s: State, l: Label)
    requires l.PlainDrop? && Enabled(s, l)
    ensures Closer(Apply(s, l), s)
  {
    SumUpdate(s.threads, l.t, s.threads[l.t].(pc := Between), Waiting);
  }

  /** Every internal step brings the daemon closer to rest. */
  lemma InternalStepsEnd(s: State, l: Label)
    requires SlotsOwned(s) && Enabled(s, l) && Internal(l)
    ensures Closer(Apply(s, l), s)
  {
    match l
    case Next(t) => NextCloser(s, t);
    case Claim(t, path, _) => ClaimCloser(s, t, path);
    case PlainClaim(t, path) => ClaimCloser(s, t, path);
    case PlainDrop(_, _) => DropCloser(s, l);
    case Queue(_, _, _) => QueueCloser(s, l);
    case LockTaken(t) => MoveCloser(s, t, Holding);
    case LockError(t, path, replayer) => FreedCloser(s, t, path, Between, replayer);
    case LockPanic(t, _, _) => ThreadLeaves(s, t);
    case End(t, panicked) => MoveCloser(s, t, Returning(panicked));
    case Release(t, path, replayer) =>
      FreedCloser(s, t, path, if s.threads[t].pc.panicked then Unwinding else Between, replayer);
    case Discard(t, _, _) => ThreadLeaves(s, t);
    case Unwind(t, _, _) => ThreadLeaves(s, t);
    case Finish(t) => ThreadLeaves(s, t);
    case UnmarkTeardown(t, _) => RemovedSize(s.tearing, t);
  }

  lemma {:induction false} UnusedTid(used: set<nat>) returns (t: nat)
    ensures t !in used && forall u :: u in used ==> u < t
  {
    if used == {} {
      t := 0;
    } else {
      var u := Member(used);
      var rest := used - {u};
      t := UnusedTid(rest);
      t := if u < t then t else u + 1;
      assert forall v :: v in used ==> v == u || v in rest;
    }
  }

  /** The step a goroutine takes next when its run goes well. */
  lemma ThreadMoves(s: State, t: Tid) returns (l: Label)
    requires SlotsOwned(s) && t in s.threads
    ensures Internal(l) && Enabled(s, l) && !l.LockPanic?
  {
    var th := s.threads[t];
    match th.pc {
      case Between =>
        if th.rest == [] {
          l := Finish(t);
        } else if th.replays && th.path in s.marks {
          l := Discard(t, th.path, th.rest);
        } else {
          l := Next(t);
        }
      case AtClaim(req) => l := if th.path in s.slots then Queue(t, th.path, req) else Claim(t, th.path, req);
      case AtPlain => l := if th.path in s.slots then PlainDrop(t, th.path) else PlainClaim(t, th.path);
      case AtLock => l := LockTaken(t);
      case Holding => l := End(t, false);
      case Returning(_) =>
        assert HolderOf(s, t, th.path);
        var r := UnusedTid(s.threads.Keys + s.tearing.Keys);
        l := Release(t, th.path, r);
      case Unwinding => l := Unwind(t, th.path, th.rest);
    }
  }

  /** The daemon is never stuck: while a goroutine or teardown is left, leaked
      slots or not, it has a step of its own to take. */
  lemma NeverStuck(s: State) returns (l: Label)
    requires SlotsOwned(s) && MarksOwned(s) && !Quiet(s)
    ensures Internal(l) && Enabled(s, l) && !l.LockPanic?
  {
    if |s.tearing| != 0 {
      var t := Key(s.tearing);
      l := UnmarkTeardown(t, s.tearing[t]);
    } else {
      var t := Key(s.threads);
      l := ThreadMoves(s, t);
    }
  }

  lemma DrainStep(tr: seq<Label>) returns (l: Label)
    requires Run(tr) && !Quiet(After(tr))
    ensures Internal(l) && !l.LockPanic? && Run(tr + [l]) && Closer(After(tr + [l]), After(tr))
  {
    Exclusion(tr);
    l := NeverStuck(After(tr));
    InternalStepsEnd(After(tr), l);
    RunSnoc(tr, l);
  }

  /** Every run can be carried to where no goroutine is left by internal steps
      alone, and without leaking a slot on the way. */
  lemma {:induction false} CanDrain(tr: seq<Label>) returns (done: seq<Label>)
    requires Run(tr)
    ensures tr <= done && Run(done) && Quiet(After(done))
    ensures forall i :: |tr| <= i < |done| ==> Internal(done[i]) && !done[i].LockPanic?
    decreases Demand(After(tr)), Effort(After(tr))
  {
    if Quiet(After(tr)) {
      done := tr;
    } else {
      var l := DrainStep(tr);
      done := CanDrain(tr + [l]);
    }
  }

  /** The shortest leak: an RPC finalize panics in its lock. */
  lemma LeakingRun(path: Path) returns (tr: seq<Label>)
    ensures tr == [Rpc(0, path), PlainClaim(0, path), LockPanic(0, path, [])]
    ensures Run(tr) && Quiet(After(tr)) && Leaked(After(tr), path)
  {
    tr := ExecSnoc([], START, Rpc(0, path));
    var s1 := State(map[], {}, map[0 := Thread(path, false, AtPlain, [])], map[]);
    tr := ExecSnoc(tr, s1, PlainClaim(0, path));
    var s2 := State(map[path := IDLE], {}, map[0 := Thread(path, false, AtLock, [])], map[]);
    assert Apply(s1, PlainClaim(0, path)) == s2;
    tr := ExecSnoc(tr, s2, LockPanic(0, path, []));
    assert s2.threads - {0} == map[];
  }

  lemma QuietSlots(s: State, path: Path)
    requires Quiet(s)
    ensures path in s.slots <==> Leaked(s, path)
  {
    assert s.threads == map[];
  }

  /** `done` carries on `tr` by internal steps until nothing is left: no
      goroutine, no slot and no mark. */
  ghost predicate Drains(tr: seq<Label>, done: seq<Label>) {
    && tr <= done && Run(done) && (forall i :: |tr| <= i < |done| ==> Internal(done[i]))
    && Quiet(After(done)) && After(done).slots == map[] && After(done).marks == {}
  }

  lemma LeakStays(tr: seq<Label>, done: seq<Label>, path: Path)
    requires tr <= done && LockPanicked(tr, path)
    ensures LockPanicked(done, path)
  {
    var j :| 0 <= j < |tr| && Leaks(tr[j], path);
    assert Leaks(done[j], path);
  }

  lemma NoLeakAdded(tr: seq<Label>, done: seq<Label>, path: Path)
    requires tr <= done && LockPanicked(done, path) && forall i :: |tr| <= i < |done| ==> !done[i].LockPanic?
    ensures LockPanicked(tr, path)
  {
    var j :| 0 <= j < |done| && Leaks(done[j], path);
    assert Leaks(tr[j], path);
  }

  lemma DrainedHasNoLeak(tr: seq<Label>, done: seq<Label>, path: Path)
    requires Drains(tr, done)
    ensures !LockPanicked(tr, path)
  {
    LeakedExactly(done, path);
    if LockPanicked(tr, path) {
      LeakStays(tr, done, path);
    }
  }

  lemma DrainWithoutLeak(tr: seq<Label>) returns (done: seq<Label>)
    requires Run(tr) && forall path :: !LockPanicked(tr, path)
    ensures Drains(tr, done)
  {
    done := CanDrain(tr);
    var s := After(done);
    forall path ensures path !in s.slots {
      QuietSlots(s, path);
      LeakedExactly(done, path);
      if LockPanicked(done, path) {
        NoLeakAdded(tr, done, path);
      }
    }
    Exclusion(done);
    QuietMarks(s);
  }

  /** Exactly when a run can drain: no goroutine of it panicked in its lock. */
  lemma DrainsExactly(tr: seq<Label>)
    requires Run(tr)
    ensures (exists done :: Drains(tr, done)) <==> forall path :: !LockPanicked(tr, path)
  {
    forall done, path | Drains(tr, done) ensures !LockPanicked(tr, path) {
      DrainedHasNoLeak(tr, done, path);
    }
    if forall path :: !LockPanicked(tr, path) {
      var done := DrainWithoutLeak(tr);
    }
  }

  lemma QuietMarks(s: State)
    requires Quiet(s) && MarksOwned(s)
    ensures s.marks == {}
  {
    assert s.tearing == map[];
    assert forall path :: path !in s.marks;
  }

  /** At rest no mark is left and no slot but the leaked ones: every request ever
      dispatched was covered by a later run, torn down, lost to a panic, or
      queued on a slot that a panic in the lock leaked. */
  lemma ServedAtRest(tr: seq<Label>, i: nat, want: Rerun)
    requires Run(tr) && i < |tr| && tr[i].Dispatch? && want in tr[i].reqs && Quiet(After(tr))
    ensures After(tr).marks == {} && forall path :: path in After(tr).slots <==> LockPanicked(tr, path)
    ensures || ServedAfter(tr, i, tr[i].path, want)
            || TornDownAfter(tr, i, tr[i].path, want)
            || PanickedAfter(tr, i, tr[i].path, want)
            || (LockPanicked(tr, tr[i].path) && EntryCovers(After(tr).slots[tr[i].path], want))
  {
    NoLostChange(tr, i, want);
    Exclusion(tr);
    var s := After(tr);
    QuietMarks(s);
    assert s.threads == map[];
    forall path ensures path in s.slots <==> LockPanicked(tr, path) {
      QuietSlots(s, path);
      LeakedExactly(tr, path);
    }
  }
}
