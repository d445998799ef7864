/** Where the requests of a run come from (internal/daemon/state.go,
    internal/daemon/finalize.go): what is claimed, queued or replayed is what some
    event asked for, with its repository, environment and run id. */
module RequestOrigins {
  import opened Prelude
  import opened FinalizeSlots
  import opened FinalizeProtocol

  // -------------------------------------------- a property of all requests around

  /** A property of requests on a path. */
  type Kind = (Path, Rerun) -> bool

  ghost predicate ThreadOf(th: Thread, kind: Kind) {
    && (th.pc.AtClaim? ==> kind(th.path, th.pc.req))
    && forall i :: 0 <= i < |th.rest| ==> kind(th.path, th.rest[i])
  }

  ghost predicate EntryOf(path: Path, e: Entry, kind: Kind) {
    && WellKeyed(e)
    && (forall k :: k in e.watchReruns ==> kind(path, Watch(e.watchReruns[k])))
    && (e.headRerun.Some? ==> kind(path, Head(e.headRerun.value)))
  }

  /** Every request in a goroutine or a queue has the property. */
  ghost predicate AllOf(s: State, kind: Kind) {
    && (forall t :: t in s.threads ==> ThreadOf(s.threads[t], kind))
    && (forall path :: path in s.slots ==> EntryOf(path, s.slots[path], kind))
  }

  /** Coalescing into a queued "every database" keeps the property. */
  ghost predicate Coalesces(kind: Kind) {
    forall path, r: WatchRerun, all: WatchRerun ::
      kind(path, Watch(r)) && kind(path, Watch(all)) && all.dbIndex == ALL ==> kind(path, Watch(r.(dbIndex := ALL)))
  }

  lemma EnqueueOf(path: Path, e: Entry, r: Rerun, kind: Kind)
    requires EntryOf(path, e, kind) && kind(path, r) && Coalesces(kind)
    ensures EntryOf(path, Enqueue(e, r), kind)
  {
    EnqueueKeepsKeys(e, r);
    if r.Watch? && ALL in e.watchReruns {
      assert kind(path, Watch(e.watchReruns[ALL]));
      assert kind(path, Watch(r.watch.(dbIndex := ALL)));
    }
  }

  lemma ReplayOf(path: Path, e: Entry, kind: Kind)
    requires EntryOf(path, e, kind)
    ensures forall i :: 0 <= i < |ReplayList(Handback(e))| ==> kind(path, ReplayList(Handback(e))[i])
  {
    ReplaysTheQueue(e);
  }

  lemma OwnOf(s: State, l: Label, kind: Kind)
    requires Enabled(s, l) && (l.t in s.threads ==> ThreadOf(s.threads[l.t], kind))
    requires l.Dispatch? ==> forall i :: 0 <= i < |l.reqs| ==> kind(l.path, l.reqs[i])
    ensures l.t in Apply(s, l).threads ==> ThreadOf(Apply(s, l).threads[l.t], kind)
  {
  }

  lemma ReplayerOf(s: State, l: Label, t: Tid, kind: Kind)
    requires AllOf(s, kind) && Enabled(s, l) && t != l.t && t !in s.threads && t in Apply(s, l).threads
    ensures ThreadOf(Apply(s, l).threads[t], kind)
  {
    ReplayOf(l.path, s.slots[l.path], kind);
  }

  lemma SlotOf(s: State, l: Label, path: Path, kind: Kind)
    requires AllOf(s, kind) && Coalesces(kind) && Enabled(s, l) && path in Apply(s, l).slots
    ensures EntryOf(path, Apply(s, l).slots[path], kind)
  {
    SlotStep(s, l, path);
    if l.Queue? && l.path == path {
      assert ThreadOf(s.threads[l.t], kind);
      EnqueueOf(path, s.slots[path], l.req, kind);
    }
  }

  lemma AllOfStep(s: State, l: Label, kind: Kind)
    requires AllOf(s, kind) && Coalesces(kind) && Enabled(s, l)
    requires l.Dispatch? ==> forall i :: 0 <= i < |l.reqs| ==> kind(l.path, l.reqs[i])
    ensures AllOf(Apply(s, l), kind)
  {
    var s' := Apply(s, l);
    OwnOf(s, l, kind);
    forall t | t in s'.threads && t != l.t ensures ThreadOf(s'.threads[t], kind) {
      if t in s.threads {
        OthersStay(s, l, t);
      } else {
        ReplayerOf(s, l, t, kind);
      }
    }
    forall path | path in s'.slots ensures EntryOf(path, s'.slots[path], kind) {
      SlotOf(s, l, path, kind);
    }
  }

  // ---------------------------------------------------------------------- origins

  /** Step `i` dispatched `r` as the `m`-th request of an event on `path`. */
  ghost predicate DispatchedAs(tr: seq<Label>, i: int, m: int, path: Path, r: Rerun) {
    && 0 <= i < |tr| && tr[i].Dispatch? && tr[i].path == path
    && 0 <= m < |tr[i].reqs| && tr[i].reqs[m] == r
  }

  ghost predicate Dispatched(tr: seq<Label>, path: Path, r: Rerun) {
    exists i, m :: DispatchedAs(tr, i, m, path, r)
  }

  /** Some event asked for every database. */
  ghost predicate AllDispatched(tr: seq<Label>, path: Path) {
    exists r :: Dispatched(tr, path, r) && r.Watch? && r.watch.dbIndex == ALL
  }

  /** `r` is a watch request that was dispatched for one database. */
  ghost predicate Widened(tr: seq<Label>, path: Path, r: Rerun) {
    r.Watch? && r.watch.dbIndex == ALL && exists d :: Dispatched(tr, path, Watch(r.watch.(dbIndex := d)))
  }

  /** `r` was dispatched on `path` as it is, or it was dispatched for one database
      and an event asked for every database too. Repository, environment and run id
      are the dispatched ones in either case. */
  ghost predicate Originates(tr: seq<Label>, path: Path, r: Rerun) {
    Dispatched(tr, path, r) || (Widened(tr, path, r) && AllDispatched(tr, path))
  }

  lemma DispatchedGrows(front: seq<Label>, l: Label, path: Path, r: Rerun)
    requires Dispatched(front, path, r)
    ensures Dispatched(front + [l], path, r)
  {
    var i, m :| DispatchedAs(front, i, m, path, r);
    assert DispatchedAs(front + [l], i, m, path, r);
  }

  lemma OriginatesGrows(front: seq<Label>, l: Label, path: Path, r: Rerun)
    requires Originates(front, path, r)
    ensures Originates(front + [l], path, r)
  {
    if Dispatched(front, path, r) {
      DispatchedGrows(front, l, path, r);
    } else {
      var d :| Dispatched(front, path, Watch(r.watch.(dbIndex := d)));
      DispatchedGrows(front, l, path, Watch(r.watch.(dbIndex := d)));
      var a :| Dispatched(front, path, a) && a.Watch? && a.watch.dbIndex == ALL;
      DispatchedGrows(front, l, path, a);
    }
  }

  lemma OriginCoalesces(tr: seq<Label>, path: Path, r: WatchRerun, all: WatchRerun)
    requires Originates(tr, path, Watch(r)) && Originates(tr, path, Watch(all)) && all.dbIndex == ALL
    ensures Originates(tr, path, Watch(r.(dbIndex := ALL)))
  {
    var wide := r.(dbIndex := ALL);
    if Dispatched(tr, path, Watch(r)) {
      assert wide.(dbIndex := r.dbIndex) == r;
    }
    if Dispatched(tr, path, Watch(all)) {
      assert AllDispatched(tr, path);
    }
  }

  lemma {:induction false} AllOriginate(tr: seq<Label>)
    requires Run(tr)
    ensures AllOf(After(tr), (path, r) => Originates(tr, path, r))
  {
    if tr != [] {
      var front, l := tr[..|tr| - 1], tr[|tr| - 1];
      assert tr == front + [l];
      AllOriginate(front);
      var kind: Kind := (path, r) => Originates(tr, path, r);
      forall path, r | Originates(front, path, r) ensures kind(path, r) {
        OriginatesGrows(front, l, path, r);
      }
      forall path, r: WatchRerun, all: WatchRerun | kind(path, Watch(r)) && kind(path, Watch(all)) && all.dbIndex == ALL
        ensures kind(path, Watch(r.(dbIndex := ALL)))
      {
        OriginCoalesces(tr, path, r, all);
      }
      if l.Dispatch? {
        forall i | 0 <= i < |l.reqs| ensures kind(l.path, l.reqs[i]) {
          assert DispatchedAs(tr, |front|, i, l.path, l.reqs[i]);
        }
      }
      KindGrows(After(front), (path, r) => Originates(front, path, r), kind);
      AllOfStep(After(front), l, kind);
    }
  }

  lemma KindGrows(s: State, kind: Kind, wider: Kind)
    requires AllOf(s, kind) && forall path, r :: kind(path, r) ==> wider(path, r)
    ensures AllOf(s, wider)
  {
  }

  /** Nothing is made up: whatever takes the slot or is queued on it was dispatched
      earlier on that path, by an event, with the same repository, environment and
      run id, and for the same database unless it was widened to every database
      because another event had asked for that. */
  lemma RequestsOriginate(tr: seq<Label>, j: nat)
    requires Run(tr) && j < |tr| && (tr[j].Claim? || tr[j].Queue?)
    ensures Originates(tr[..j], tr[j].path, tr[j].req)
  {
    RunStep(tr, j);
    AllOriginate(tr[..j]);
    assert ThreadOf(After(tr[..j]).threads[tr[j].t], (path, r) => Originates(tr[..j], path, r));
  }

  /** A replayer starts no request while a teardown of its path is marked. */
  lemma TeardownStopsReplay(tr: seq<Label>, j: nat)
    requires Run(tr) && j < |tr| && tr[j].Next?
    ensures Run(tr[..j]) && tr[j].t in After(tr[..j]).threads
    ensures var s := After(tr[..j]);
            s.threads[tr[j].t].replays ==> s.threads[tr[j].t].path !in s.marks
  {
    RunStep(tr, j);
  }
}
