/** Finalize, queue, release and replay as a labelled transition system
    (internal/daemon/state.go, internal/daemon/finalize.go).

    Threads are the daemon's goroutines: a watcher dispatch walks the list of
    requests of one event, an RPC finalize makes one plain claim, and a
    release spawns a replayer for the reruns it was handed. Every label is one
    critical section, one call or one check, so a run is any interleaving of
    them. */
module FinalizeProtocol {
  import opened Prelude
  import opened FinalizeSlots

  type Path = string
  type Tid = nat

  datatype Pc =
    | Between                 // about to take its next request, or to exit
    | AtClaim(req: Rerun)     // entered the run of req, has not reached the slot
    | AtPlain                 // RPC finalize, has not reached the slot
    | AtLock                  // claimed the slot, taking the cross-process lock
    | Holding                 // inside its run, its release deferred
    | Returning(panicked: bool)   // the run is over, the deferred release still to come
    | Unwinding               // its run panicked and released the slot on the way out

  datatype Thread = Thread(path: Path, replays: bool, pc: Pc, rest: seq<Rerun>)

  datatype State = State(
    slots: map<Path, Entry>,
    marks: set<Path>,            // inFlightTeardowns
    threads: map<Tid, Thread>,
    tearing: map<Tid, Path>)     // goroutines inside a marked teardown

  const START := State(map[], {}, map[], map[])

  datatype Label =
    | Dispatch(t: Tid, path: Path, reqs: seq<Rerun>)    // a watcher starts a goroutine for its requests
    | Rpc(t: Tid, path: Path)                           // FinalizeWorktree is called
    | Next(t: Tid)                                      // go on with the next request
    | Discard(t: Tid, path: Path, lost: seq<Rerun>)     // a replayer sees a teardown and stops
    | Claim(t: Tid, path: Path, req: Rerun)             // the slot was free
    | Queue(t: Tid, path: Path, req: Rerun)             // the slot was busy
    | PlainClaim(t: Tid, path: Path)
    | PlainDrop(t: Tid, path: Path)
    | LockTaken(t: Tid)                                 // beginFinalize hands out the release
    | LockError(t: Tid, path: Path, replayer: Tid)      // beginFinalize gives the slot back itself
    | LockPanic(t: Tid, path: Path, lost: seq<Rerun>)   // a panic in the lock: nothing gives the slot back
    | End(t: Tid, panicked: bool)                       // the run returns, or panics
    | Release(t: Tid, path: Path, replayer: Tid)        // the deferred release
    | Unwind(t: Tid, path: Path, lost: seq<Rerun>)      // the panic reaches safeGo
    | Finish(t: Tid)
    | MarkTeardown(t: Tid, path: Path)
    | RefuseTeardown(t: Tid, path: Path)
    | UnmarkTeardown(t: Tid, path: Path)

  // ------------------------------------------------------------------ steps

  predicate Fresh(s: State, t: Tid) {
    t !in s.threads && t !in s.tearing
  }

  predicate At(s: State, t: Tid, path: Path, pc: Pc) {
    t in s.threads && s.threads[t].path == path && s.threads[t].pc == pc
  }

  /** A database index, or ALL. */
  predicate Indexed(r: Rerun) {
    r.Watch? ==> ALL <= r.watch.dbIndex
  }

  /** The requests of one event: a HEAD change alone, or a file change's
      databases. */
  predicate OneEvent(reqs: seq<Rerun>) {
    && (|reqs| == 1 || forall i :: 0 <= i < |reqs| ==> reqs[i].Watch?)
    && forall i :: 0 <= i < |reqs| ==> Indexed(reqs[i])
  }

  /** Between claim and release. */
  predicate Owning(pc: Pc) {
    pc.AtLock? || pc.Holding? || pc.Returning?
  }

  predicate Enabled(s: State, l: Label) {
    match l
    case Dispatch(t, _, reqs) => Fresh(s, t) && OneEvent(reqs)
    case Rpc(t, _) => Fresh(s, t)
    case Next(t) =>
      && t in s.threads && s.threads[t].pc == Between && s.threads[t].rest != []
      && (s.threads[t].replays ==> s.threads[t].path !in s.marks)
    case Discard(t, path, lost) =>
      At(s, t, path, Between) && s.threads[t].replays && s.threads[t].rest == lost != [] && path in s.marks
    case Claim(t, path, req) => At(s, t, path, AtClaim(req)) && path !in s.slots
    case Queue(t, path, req) => At(s, t, path, AtClaim(req)) && path in s.slots
    case PlainClaim(t, path) => At(s, t, path, AtPlain) && path !in s.slots
    case PlainDrop(t, path) => At(s, t, path, AtPlain) && path in s.slots
    case LockTaken(t) => t in s.threads && s.threads[t].pc == AtLock
    case LockError(t, path, replayer) => At(s, t, path, AtLock) && path in s.slots && Fresh(s, replayer)
    case LockPanic(t, path, lost) =>
      && t in s.threads && s.threads[t].path == path && s.threads[t].rest == lost
      && (s.threads[t].pc.AtLock? || s.threads[t].pc.Returning?)
    case End(t, _) => t in s.threads && s.threads[t].pc == Holding
    case Release(t, path, replayer) =>
      && t in s.threads && s.threads[t].path == path && s.threads[t].pc.Returning?
      && path in s.slots && Fresh(s, replayer)
    case Unwind(t, path, lost) => At(s, t, path, Unwinding) && s.threads[t].rest == lost
    case Finish(t) => t in s.threads && s.threads[t].pc == Between && s.threads[t].rest == []
    case MarkTeardown(t, path) => Fresh(s, t) && path !in s.marks
    case RefuseTeardown(t, path) => path in s.marks
    case UnmarkTeardown(t, path) => t in s.tearing && s.tearing[t] == path
  }

  function Goto(s: State, t: Tid, pc: Pc): State
    requires t in s.threads
  {
    s.(threads := s.threads[t := s.threads[t].(pc := pc)])
  }

  function Replayed(s: State, path: Path): seq<Rerun>
    requires path in s.slots
  {
    ReplayList(Handback(s.slots[path]))
  }

  /** The slot is unmarked and its queue handed to a replayer. */
  function Freed(s: State, t: Tid, path: Path, pc: Pc, replayer: Tid): State
    requires t in s.threads && path in s.slots
  {
    var list := Replayed(s, path);
    var freed := Goto(s, t, pc).(slots := s.slots - {path});
    if list == [] then freed
    else freed.(threads := freed.threads[replayer := Thread(path, true, Between, list)])
  }

  function Apply(s: State, l: Label): State
    requires Enabled(s, l)
  {
    match l
    case Dispatch(t, path, reqs) => s.(threads := s.threads[t := Thread(path, false, Between, reqs)])
    case Rpc(t, path) => s.(threads := s.threads[t := Thread(path, false, AtPlain, [])])
    case Next(t) =>
      var th := s.threads[t];
      s.(threads := s.threads[t := th.(pc := AtClaim(th.rest[0]), rest := th.rest[1..])])
    case Discard(t, _, _) => s.(threads := s.threads - {t})
    case Claim(t, path, _) => Goto(s, t, AtLock).(slots := s.slots[path := IDLE])
    case Queue(t, path, req) => Goto(s, t, Between).(slots := s.slots[path := Enqueue(s.slots[path], req)])
    case PlainClaim(t, path) => Goto(s, t, AtLock).(slots := s.slots[path := IDLE])
    case PlainDrop(t, _) => Goto(s, t, Between)
    case LockTaken(t) => Goto(s, t, Holding)
    case LockError(t, path, replayer) => Freed(s, t, path, Between, replayer)
    case LockPanic(t, _, _) => s.(threads := s.threads - {t})
    case End(t, panicked) => Goto(s, t, Returning(panicked))
    case Release(t, path, replayer) =>
      Freed(s, t, path, if s.threads[t].pc.panicked then Unwinding else Between, replayer)
    case Unwind(t, _, _) => s.(threads := s.threads - {t})
    case Finish(t) => s.(threads := s.threads - {t})
    case MarkTeardown(t, path) => s.(marks := s.marks + {path}, tearing := s.tearing[t := path])
    case RefuseTeardown(_, _) => s
    case UnmarkTeardown(t, path) => s.(marks := s.marks - {path}, tearing := s.tearing - {t})
  }

  // ------------------------------------------------------------------- runs

  ghost function Exec(tr: seq<Label>): Option<State> {
    if tr == [] then Some(START)
    else
      var before := Exec(tr[..|tr| - 1]);
      if before.Some? && Enabled(before.value, tr[|tr| - 1])
      then Some(Apply(before.value, tr[|tr| - 1])) else None
  }

  /** `tr` is an interleaving the daemon can perform from its start. */
  ghost predicate Run(tr: seq<Label>) {
    Exec(tr).Some?
  }

  ghost function After(tr: seq<Label>): State
    requires Run(tr)
  {
    Exec(tr).value
  }

  lemma RunSnoc(tr: seq<Label>, l: Label)
    ensures Run(tr + [l]) <==> Run(tr) && Enabled(After(tr), l)
    ensures Run(tr + [l]) ==> After(tr + [l]) == Apply(After(tr), l)
  {
    assert (tr + [l])[..|tr|] == tr;
  }

  lemma {:induction false} RunPrefix(tr: seq<Label>, n: nat)
    requires Run(tr) && n <= |tr|
    ensures Run(tr[..n])
  {
    if n < |tr| {
      RunPrefix(tr[..|tr| - 1], n);
      assert tr[..|tr| - 1][..n] == tr[..n];
    } else {
      assert tr[..n] == tr;
    }
  }

  lemma RunStep(tr: seq<Label>, k: nat)
    requires Run(tr) && k < |tr|
    ensures Run(tr[..k]) && Enabled(After(tr[..k]), tr[k])
    ensures Run(tr[..k + 1]) && After(tr[..k + 1]) == Apply(After(tr[..k]), tr[k])
  {
    RunPrefix(tr, k + 1);
    assert tr[..k + 1] == tr[..k] + [tr[k]];
    RunSnoc(tr[..k], tr[k]);
  }

  lemma ExecSnoc(tr: seq<Label>, s: State, l: Label) returns (next: seq<Label>)
    requires Exec(tr) == Some(s) && Enabled(s, l)
    ensures next == tr + [l] && Exec(next) == Some(Apply(s, l))
  {
    next := tr + [l];
    assert next[..|tr|] == tr;
  }

  // --------------------------------------------------------------- exclusion

  ghost predicate HolderOf(s: State, t: Tid, path: Path) {
    t in s.threads && s.threads[t].path == path && Owning(s.threads[t].pc)
  }

  /** A path has at most one holder, and its slot is taken while it has one. */
  ghost predicate SlotsOwned(s: State) {
    && (forall path :: path in s.slots ==> WellKeyed(s.slots[path]))
    && (forall t, path :: HolderOf(s, t, path) ==> path in s.slots)
    && (forall t, u, path :: HolderOf(s, t, path) && HolderOf(s, u, path) ==> t == u)
  }

  /** A slot that is taken and has nobody to release it. */
  ghost predicate Leaked(s: State, path: Path) {
    path in s.slots && forall t :: !HolderOf(s, t, path)
  }

  ghost predicate TearsDown(s: State, t: Tid, path: Path) {
    t in s.tearing && s.tearing[t] == path
  }

  /** A marked path has exactly one teardown behind its mark. */
  ghost predicate MarksOwned(s: State) {
    && (forall path :: path in s.marks ==> exists t :: TearsDown(s, t, path))
    && (forall t, path :: TearsDown(s, t, path) ==> path in s.marks)
    && (forall t, u, path :: TearsDown(s, t, path) && TearsDown(s, u, path) ==> t == u)
  }

  /** The step takes the slot of its path. */
  predicate Takes(l: Label, path: Path) {
    (l.Claim? || l.PlainClaim?) && l.path == path
  }

  predicate Frees(l: Label, path: Path) {
    (l.Release? || l.LockError?) && l.path == path
  }

  predicate Leaks(l: Label, path: Path) {
    l.LockPanic? && l.path == path
  }

  /** The step ends its goroutine's hold of a slot. */
  predicate GivesUp(l: Label) {
    l.Release? || l.LockError? || l.LockPanic?
  }

  lemma FreedThreads(s: State, t: Tid, path: Path, pc: Pc, replayer: Tid, u: Tid)
    requires t in s.threads && path in s.slots && Fresh(s, replayer) && u != t
    ensures var s' := Freed(s, t, path, pc, replayer);
            && (u in s.threads ==> u in s'.threads && s'.threads[u] == s.threads[u])
            && (u in s'.threads && u !in s.threads ==> s'.threads[u].pc == Between)
  {
  }

  /** A step moves its own goroutine and, on a release, starts a replayer. */
  lemma OthersStay(s: State, l: Label, t: Tid)
    requires Enabled(s, l) && t != l.t
    ensures t in s.threads ==> t in Apply(s, l).threads && Apply(s, l).threads[t] == s.threads[t]
    ensures t in Apply(s, l).threads && t !in s.threads ==> Apply(s, l).threads[t].pc == Between
  {
    match l
    case Release(u, path, replayer) =>
      FreedThreads(s, u, path, if s.threads[u].pc.panicked then Unwinding else Between, replayer, t);
    case LockError(u, path, replayer) => FreedThreads(s, u, path, Between, replayer, t);
    case _ =>
  }

  /** Steps of a goroutine on a slot, and the others. */
  lemma OwnPath(s: State, l: Label)
    requires Enabled(s, l) && l.t in s.threads && l.t in Apply(s, l).threads
    ensures Apply(s, l).threads[l.t].path == s.threads[l.t].path
  {
  }

  lemma OwnPc(s: State, l: Label)
    requires Enabled(s, l) && l.t in s.threads && l.t in Apply(s, l).threads
    ensures Owning(Apply(s, l).threads[l.t].pc) <==>
              l.Claim? || l.PlainClaim? || (Owning(s.threads[l.t].pc) && !GivesUp(l))
  {
  }

  lemma OwnHold(s: State, l: Label, path: Path)
    requires Enabled(s, l)
    ensures HolderOf(Apply(s, l), l.t, path) <==> Takes(l, path) || (HolderOf(s, l.t, path) && !GivesUp(l))
  {
    if l.t in s.threads && l.t in Apply(s, l).threads {
      OwnPath(s, l);
      OwnPc(s, l);
    }
  }

  lemma HolderStep(s: State, l: Label, t: Tid, path: Path)
    requires Enabled(s, l)
    ensures HolderOf(Apply(s, l), t, path) <==>
              (Takes(l, path) && t == l.t) || (HolderOf(s, t, path) && !(GivesUp(l) && t == l.t))
  {
    if t != l.t {
      OthersStay(s, l, t);
    } else {
      OwnHold(s, l, path);
    }
  }

  lemma SlotStep(s: State, l: Label, path: Path)
    requires Enabled(s, l)
    ensures path in Apply(s, l).slots <==> Takes(l, path) || (path in s.slots && !Frees(l, path))
    ensures path in Apply(s, l).slots ==>
              Apply(s, l).slots[path] ==
              if Takes(l, path) then IDLE
              else if l.Queue? && l.path == path then Enqueue(s.slots[path], l.req)
              else s.slots[path]
  {
  }

  lemma SlotKeyed(s: State, l: Label, path: Path)
    requires Enabled(s, l) && (path in s.slots ==> WellKeyed(s.slots[path])) && path in Apply(s, l).slots
    ensures WellKeyed(Apply(s, l).slots[path])
  {
    SlotStep(s, l, path);
    if l.Queue? && l.path == path {
      EnqueueKeepsKeys(s.slots[path], l.req);
    }
  }

  /** What a step does to the slots and their holders. */
  ghost predicate OwnersMove(s: State, s': State, l: Label) {
    && (forall path :: path in s'.slots ==> WellKeyed(s'.slots[path]))
    && (forall path :: path in s'.slots <==> Takes(l, path) || (path in s.slots && !Frees(l, path)))
    && (forall t, path :: HolderOf(s', t, path) <==>
          (Takes(l, path) && t == l.t) || (HolderOf(s, t, path) && !(GivesUp(l) && t == l.t)))
    && ((l.Claim? || l.PlainClaim?) ==> l.path !in s.slots)
    && (GivesUp(l) ==> HolderOf(s, l.t, l.path))
  }

  lemma StepMovesOwners(s: State, l: Label)
    requires SlotsOwned(s) && Enabled(s, l)
    ensures OwnersMove(s, Apply(s, l), l)
  {
    GuardsHold(s, l);
    var s' := Apply(s, l);
    forall t, path ensures HolderOf(s', t, path) <==>
                     (Takes(l, path) && t == l.t) || (HolderOf(s, t, path) && !(GivesUp(l) && t == l.t))
    {
      HolderStep(s, l, t, path);
    }
    forall path ensures path in s'.slots ==> WellKeyed(s'.slots[path])
                ensures path in s'.slots <==> Takes(l, path) || (path in s.slots && !Frees(l, path))
    {
      SlotStep(s, l, path);
      if path in s'.slots {
        SlotKeyed(s, l, path);
      }
    }
  }

  lemma GuardsHold(s: State, l: Label)
    requires Enabled(s, l)
    ensures (l.Claim? || l.PlainClaim?) ==> l.path !in s.slots
    ensures GivesUp(l) ==> HolderOf(s, l.t, l.path)
  {
  }

  lemma OwnedAfter(s: State, s': State, l: Label)
    requires SlotsOwned(s) && OwnersMove(s, s', l)
    ensures SlotsOwned(s')
  {
  }

  /** A leak comes from a panic in the lock, and stays. */
  lemma LeakedAfter(s: State, s': State, l: Label, path: Path)
    requires SlotsOwned(s) && OwnersMove(s, s', l)
    ensures Leaked(s', path) <==> Leaked(s, path) || Leaks(l, path)
  {
    if path in s.slots && !Leaked(s, path) {
      var t :| HolderOf(s, t, path);
      if !(GivesUp(l) && t == l.t) {
        assert HolderOf(s', t, path);
      }
    }
    if Takes(l, path) {
      assert HolderOf(s', l.t, path);
    }
  }

  lemma SlotsOwnedStep(s: State, l: Label)
    requires SlotsOwned(s) && Enabled(s, l)
    ensures SlotsOwned(Apply(s, l))
  {
    StepMovesOwners(s, l);
    OwnedAfter(s, Apply(s, l), l);
  }

  lemma MarksOwnedStep(s: State, l: Label)
    requires MarksOwned(s) && Enabled(s, l)
    ensures MarksOwned(Apply(s, l))
  {
    var s' := Apply(s, l);
    if l.UnmarkTeardown? {
      assert TearsDown(s, l.t, l.path);
    }
    forall path | path in s'.marks ensures exists t :: TearsDown(s', t, path) {
      if path in s.marks {
        var t :| TearsDown(s, t, path);
        assert TearsDown(s', t, path);
      } else {
        assert TearsDown(s', l.t, path);
      }
    }
    forall t, path | TearsDown(s', t, path)
      ensures path in s'.marks
      ensures if l.MarkTeardown? && path == l.path then t == l.t else TearsDown(s, t, path)
    {
      assert TearsDown(s, t, path) || t == l.t;
    }
  }

  /** In every run a path has at most one finalize holder and at most one
      teardown; a slot is taken while someone holds it, and a mark exactly while
      someone tears down. */
  lemma {:induction false} Exclusion(tr: seq<Label>)
    requires Run(tr)
    ensures SlotsOwned(After(tr)) && MarksOwned(After(tr))
  {
    if tr != [] {
      Exclusion(tr[..|tr| - 1]);
      SlotsOwnedStep(After(tr[..|tr| - 1]), tr[|tr| - 1]);
      MarksOwnedStep(After(tr[..|tr| - 1]), tr[|tr| - 1]);
    }
  }

  /** How often `path`'s slot was taken, respectively given back. */
  ghost function Claims(tr: seq<Label>, path: Path): nat {
    if tr == [] then 0 else
      var l := tr[|tr| - 1];
      Claims(tr[..|tr| - 1], path) + if Takes(l, path) then 1 else 0
  }

  ghost function Releases(tr: seq<Label>, path: Path): nat {
    if tr == [] then 0 else
      var l := tr[|tr| - 1];
      Releases(tr[..|tr| - 1], path) + if Frees(l, path) then 1 else 0
  }

  /** Claims and releases of a path alternate in every run. */
  lemma {:induction false} ClaimsAreReleased(tr: seq<Label>, path: Path)
    requires Run(tr)
    ensures Claims(tr, path) == Releases(tr, path) + if path in After(tr).slots then 1 else 0
  {
    if tr != [] {
      ClaimsAreReleased(tr[..|tr| - 1], path);
      Exclusion(tr[..|tr| - 1]);
      SlotStep(After(tr[..|tr| - 1]), tr[|tr| - 1], path);
    }
  }

  ghost predicate LockPanicked(tr: seq<Label>, path: Path) {
    exists j :: 0 <= j < |tr| && Leaks(tr[j], path)
  }

  lemma LockPanickedFront(front: seq<Label>, l: Label, path: Path)
    ensures LockPanicked(front + [l], path) <==> LockPanicked(front, path) || Leaks(l, path)
  {
    var tr := front + [l];
    assert tr[|front|] == l && forall j :: 0 <= j < |front| ==> tr[j] == front[j];
  }

  /** A slot is leaked exactly when some goroutine panicked in its lock. */
  lemma {:induction false} LeakedExactly(tr: seq<Label>, path: Path)
    requires Run(tr)
    ensures Leaked(After(tr), path) <==> LockPanicked(tr, path)
  {
    if tr != [] {
      var front, l := tr[..|tr| - 1], tr[|tr| - 1];
      LeakedExactly(front, path);
      Exclusion(front);
      StepMovesOwners(After(front), l);
      LeakedAfter(After(front), After(tr), l, path);
      LockPanickedFront(front, l, path);
      assert tr == front + [l];
    }
  }

  ghost function Marks(tr: seq<Label>, path: Path): nat {
    if tr == [] then 0 else
      var l := tr[|tr| - 1];
      Marks(tr[..|tr| - 1], path) + if l.MarkTeardown? && l.path == path then 1 else 0
  }

  ghost function Unmarks(tr: seq<Label>, path: Path): nat {
    if tr == [] then 0 else
      var l := tr[|tr| - 1];
      Unmarks(tr[..|tr| - 1], path) + if l.UnmarkTeardown? && l.path == path then 1 else 0
  }

  /** The same for teardown marks. */
  lemma {:induction false} MarksAreCleared(tr: seq<Label>, path: Path)
    requires Run(tr)
    ensures Marks(tr, path) == Unmarks(tr, path) + if path in After(tr).marks then 1 else 0
  {
    if tr != [] {
      var front, l := tr[..|tr| - 1], tr[|tr| - 1];
      MarksAreCleared(front, path);
      Exclusion(front);
      if l.UnmarkTeardown? {
        assert TearsDown(After(front), l.t, l.path);
      }
    }
  }
}
