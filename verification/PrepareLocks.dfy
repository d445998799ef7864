/** The per-worktree engine-prepare locks (internal/daemon/state.go).

    The finalize pipeline, the watcher re-prepare, a queued `prepare` task and
    `db reset` all go through withWorktreePrepare, which looks the worktree's
    mutex up, creating it on first use, and holds it around the build. */
module PrepareLocks {
  import opened Prelude

  class Mutex {
    constructor () {}
  }

  /** prepareLks behind prepareMu. */
  class LockTable {
    var locks: map<string, Mutex>

    /** No two worktrees share a mutex. */
    ghost predicate Valid() reads this {
      forall p, q :: p in locks && q in locks && locks[p] == locks[q] ==> p == q
    }

    constructor ()
      ensures Valid() && locks == map[]
    {
      locks := map[];
    }

    /** worktreePrepareLock: the first caller creates the mutex, every later one
        gets the same. */
    method PrepareLock(wtPath: string) returns (mu: Mutex)
      requires Valid()
      modifies this
      ensures Valid()
      ensures wtPath in old(locks) ==> locks == old(locks) && mu == locks[wtPath]
      ensures wtPath !in old(locks) ==> fresh(mu) && locks == old(locks)[wtPath := mu]
    {
      if wtPath in locks {
        mu := locks[wtPath];
      } else {
        mu := new Mutex();
        locks := locks[wtPath := mu];
      }
    }
  }

  // ------------------------------------------------ all callers interleaved

  type LockId = nat
  type Tid = nat

  datatype Pc = AtLookup | Waiting(lock: LockId) | Inside(lock: LockId)

  datatype Caller = Caller(path: string, pc: Pc)

  datatype State = State(locks: map<string, LockId>, created: nat, held: set<LockId>, callers: map<Tid, Caller>)

  const START := State(map[], 0, {}, map[])

  datatype Label = Call(t: Tid, path: string) | Lookup(t: Tid) | Lock(t: Tid) | Unlock(t: Tid)

  predicate Enabled(s: State, l: Label) {
    if l.Call? then l.t !in s.callers
    else
      && l.t in s.callers
      && var pc := s.callers[l.t].pc;
         match l
         case Lookup(_) => pc.AtLookup?
         case Lock(_) => pc.Waiting? && pc.lock !in s.held
         case Unlock(_) => pc.Inside?
  }

  function Apply(s: State, l: Label): State
    requires Enabled(s, l)
  {
    match l
    case Call(t, path) => s.(callers := s.callers[t := Caller(path, AtLookup)])
    case Lookup(t) =>
      var c := s.callers[t];
      if c.path in s.locks then
        s.(callers := s.callers[t := c.(pc := Waiting(s.locks[c.path]))])
      else
        s.(locks := s.locks[c.path := s.created], created := s.created + 1,
           callers := s.callers[t := c.(pc := Waiting(s.created))])
    case Lock(t) =>
      var c := s.callers[t];
      s.(held := s.held + {c.pc.lock}, callers := s.callers[t := c.(pc := Inside(c.pc.lock))])
    case Unlock(t) =>
      s.(held := s.held - {s.callers[t].pc.lock}, callers := s.callers - {t})
  }

  ghost predicate InsideWith(s: State, t: Tid, lock: LockId) {
    t in s.callers && s.callers[t].pc == Inside(lock)
  }

  /** Every worktree has its own mutex, and a caller waits for or holds its
      worktree's. */
  ghost predicate KeysApart(s: State) {
    && (forall p :: p in s.locks ==> s.locks[p] < s.created)
    && (forall p, q :: p in s.locks && q in s.locks && s.locks[p] == s.locks[q] ==> p == q)
    && (forall t :: t in s.callers && !s.callers[t].pc.AtLookup? ==>
          s.callers[t].path in s.locks && s.callers[t].pc.lock == s.locks[s.callers[t].path])
  }

  /** A held mutex has exactly one holder. */
  ghost predicate HeldOnce(s: State) {
    && (forall k :: k in s.held ==> exists t :: InsideWith(s, t, k))
    && (forall t, k :: InsideWith(s, t, k) ==> k in s.held)
    && (forall t, u, k :: InsideWith(s, t, k) && InsideWith(s, u, k) ==> t == u)
  }

  ghost predicate Inv(s: State) {
    KeysApart(s) && HeldOnce(s)
  }

  lemma KeysStayApart(s: State, l: Label)
    requires KeysApart(s) && Enabled(s, l)
    ensures KeysApart(Apply(s, l))
  {
    var s' := Apply(s, l);
    forall t | t in s'.callers && !s'.callers[t].pc.AtLookup?
      ensures s'.callers[t].path in s'.locks && s'.callers[t].pc.lock == s'.locks[s'.callers[t].path]
    {
      assert t != l.t ==> t in s.callers && s.callers[t] == s'.callers[t];
    }
  }

  lemma HeldStep(s: State, l: Label)
    requires HeldOnce(s) && Enabled(s, l)
    ensures HeldOnce(Apply(s, l))
  {
    var s' := Apply(s, l);
    if l.Unlock? {
      assert InsideWith(s, l.t, s.callers[l.t].pc.lock);
    }
    forall t, k | InsideWith(s', t, k)
      ensures k in s'.held
      ensures if l.Lock? && t == l.t then k == s.callers[t].pc.lock && k !in s.held else InsideWith(s, t, k)
    {
      if !(l.Lock? && t == l.t) {
        assert InsideWith(s, t, k);
      }
    }
    forall k | k in s'.held ensures exists t :: InsideWith(s', t, k) {
      if k in s.held {
        var t :| InsideWith(s, t, k);
        assert InsideWith(s', t, k);
      } else {
        assert InsideWith(s', l.t, k);
      }
    }
  }

  ghost function Exec(tr: seq<Label>): Option<State> {
    if tr == [] then Some(START)
    else
      var before := Exec(tr[..|tr| - 1]);
      if before.Some? && Enabled(before.value, tr[|tr| - 1])
      then Some(Apply(before.value, tr[|tr| - 1])) else None
  }

  lemma {:induction false} InvHolds(tr: seq<Label>)
    requires Exec(tr).Some?
    ensures Inv(Exec(tr).value)
  {
    if tr != [] {
      InvHolds(tr[..|tr| - 1]);
      KeysStayApart(Exec(tr[..|tr| - 1]).value, tr[|tr| - 1]);
      HeldStep(Exec(tr[..|tr| - 1]).value, tr[|tr| - 1]);
    }
  }

  /** In every interleaving at most one caller builds a worktree's databases at
      a time, and callers of different worktrees never hold the same mutex. */
  lemma OnePrepareAtATime(tr: seq<Label>, t: Tid, u: Tid)
    requires Exec(tr).Some?
    requires t in Exec(tr).value.callers && u in Exec(tr).value.callers && t != u
    requires Exec(tr).value.callers[t].pc.Inside? && Exec(tr).value.callers[u].pc.Inside?
    ensures Exec(tr).value.callers[t].path != Exec(tr).value.callers[u].path
    ensures Exec(tr).value.callers[t].pc.lock != Exec(tr).value.callers[u].pc.lock
  {
    InvHolds(tr);
    var s := Exec(tr).value;
    assert InsideWith(s, t, s.callers[t].pc.lock) && InsideWith(s, u, s.callers[u].pc.lock);
  }

  /** A waiting caller waits for somebody: no caller is ever stuck behind a
      mutex that nobody will unlock. */
  lemma WaitsForAHolder(tr: seq<Label>, t: Tid) returns (l: Label)
    requires Exec(tr).Some? && t in Exec(tr).value.callers
    ensures Enabled(Exec(tr).value, l)
    ensures l.t == t || (l.Unlock? && Exec(tr).value.callers[l.t].path == Exec(tr).value.callers[t].path)
  {
    InvHolds(tr);
    var s := Exec(tr).value;
    match s.callers[t].pc
    case AtLookup => l := Lookup(t);
    case Inside(_) => l := Unlock(t);
    case Waiting(k) =>
      if k in s.held {
        var u :| InsideWith(s, u, k);
        l := Unlock(u);
      } else {
        l := Lock(t);
      }
  }
}
