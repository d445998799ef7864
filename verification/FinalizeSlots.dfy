/** The daemon's per-worktree finalize slots (internal/daemon/state.go).

    A worktree path has at most one finalize in flight. File-change and
    HEAD-change requests that find the slot busy are queued on its entry,
    coalesced per database, and handed back when the slot is released. */
module FinalizeSlots {
  import opened Prelude

  /** Database index meaning "every database". */
  const ALL := -1

  datatype WatchRerun = WatchRerun(repoPath: string, dbIndex: int, env: map<string, string>, runId: string)

  datatype HeadRerun = HeadRerun(repoPath: string, env: map<string, string>, runId: string)

  /** A request that must not be dropped when the slot is busy. */
  datatype Rerun = Watch(watch: WatchRerun) | Head(head: HeadRerun)

  /** The queues of one in-flight finalize. */
  datatype Entry = Entry(watchReruns: map<int, WatchRerun>, headRerun: Option<HeadRerun>)

  datatype QueuedReruns = QueuedReruns(head: Option<HeadRerun>, watch: seq<WatchRerun>)

  const IDLE := Entry(map[], None)

  // ------------------------------------------------------------- the entries

  function QueueWatch(e: Entry, r: WatchRerun): Entry {
    if ALL in e.watchReruns then
      e.(watchReruns := e.watchReruns[ALL := r.(dbIndex := ALL)])
    else if r.dbIndex == ALL then
      e.(watchReruns := map[ALL := r])
    else
      e.(watchReruns := e.watchReruns[r.dbIndex := r])
  }

  function QueueHead(e: Entry, r: HeadRerun): Entry {
    e.(headRerun := Some(r))
  }

  function Enqueue(e: Entry, r: Rerun): Entry {
    match r
    case Watch(w) => QueueWatch(e, w)
    case Head(h) => QueueHead(e, h)
  }

  /** The entry after a sequence of requests on a busy slot. */
  function EnqueueAll(rs: seq<Rerun>): Entry {
    if rs == [] then IDLE else Enqueue(EnqueueAll(rs[..|rs| - 1]), rs[|rs| - 1])
  }

  lemma LeastExists(s: set<int>)
    requires s != {}
    ensures exists k :: k in s && forall j :: j in s ==> k <= j
  {
    var k := Member(s);
    var rest := s - {k};
    if rest == {} {
      assert s == {k};
    } else {
      LeastExists(rest);
      var l :| l in rest && forall j :: j in rest ==> l <= j;
      assert s == rest + {k};
      if k < l {
        assert forall j :: j in s ==> k <= j;
      } else {
        assert forall j :: j in s ==> l <= j;
      }
    }
  }

  function Least(s: set<int>): (k: int)
    requires s != {}
    ensures k in s && forall j :: j in s ==> k <= j
  {
    LeastExists(s);
    var k :| k in s && forall j :: j in s ==> k <= j;
    k
  }

  /** The members of `s` in increasing order. */
  function Ascending(s: set<int>): (ks: seq<int>)
    ensures forall i, j :: 0 <= i < j < |ks| ==> ks[i] < ks[j]
    ensures forall k :: k in ks <==> k in s
    ensures |ks| == |s|
  {
    if s == {} then [] else
      var k := Least(s);
      var rest := Ascending(s - {k});
      assert forall i :: 0 <= i < |rest| ==> rest[i] in rest;
      [k] + rest
  }

  /** The map's values in increasing key order. */
  function InKeyOrder(m: map<int, WatchRerun>): seq<WatchRerun> {
    var ks := Ascending(m.Keys);
    seq(|ks|, i requires 0 <= i < |ks| => assert ks[i] in ks; m[ks[i]])
  }

  /** What a release hands back: a queued HEAD rerun runs everything, so it
      stands for the watch reruns too. */
  function Handback(e: Entry): QueuedReruns {
    if e.headRerun.Some? then QueuedReruns(e.headRerun, [])
    else QueuedReruns(None, InKeyOrder(e.watchReruns))
  }

  // --------------------------------------------------------------- coverage

  /** Re-preparing database `have` also re-prepares database `want`. */
  predicate CoversIndex(have: int, want: int) {
    have == ALL || have == want
  }

  /** Running `have` does everything `want` asked for. */
  predicate Covers(have: Rerun, want: Rerun) {
    have.Head? || (want.Watch? && CoversIndex(have.watch.dbIndex, want.watch.dbIndex))
  }

  ghost predicate EntryCovers(e: Entry, want: Rerun) {
    e.headRerun.Some? ||
    (want.Watch? && QueueCovers(e.watchReruns, want.watch.dbIndex))
  }

  ghost predicate ListCovers(rs: seq<Rerun>, want: Rerun) {
    exists i :: 0 <= i < |rs| && Covers(rs[i], want)
  }

  /** Every queued rerun is stored under the index it carries, and "every
      database" never shares the queue with a single one. */
  ghost predicate WellKeyed(e: Entry) {
    && (forall k :: k in e.watchReruns ==> e.watchReruns[k].dbIndex == k)
    && (ALL in e.watchReruns ==> e.watchReruns.Keys == {ALL})
  }

  lemma EnqueueKeepsKeys(e: Entry, r: Rerun)
    requires WellKeyed(e)
    ensures WellKeyed(Enqueue(e, r))
  {
  }

  /** Queueing loses nothing: what the entry covered before it still covers,
      and it covers the new request. */
  lemma EnqueueCovers(e: Entry, r: Rerun, want: Rerun)
    requires WellKeyed(e) && (EntryCovers(e, want) || Covers(r, want))
    ensures EntryCovers(Enqueue(e, r), want)
  {
    var e' := Enqueue(e, r);
    if e'.headRerun.None? {
      var w := r.watch;
      var slot := if ALL in e.watchReruns then ALL else w.dbIndex;
      assert slot in e'.watchReruns;
      if k :| k in e.watchReruns && CoversIndex(k, want.watch.dbIndex) {
        assert k in e'.watchReruns || CoversIndex(slot, want.watch.dbIndex);
      }
    }
  }

  // ------------------------------------------------- coalescing, exactly

  ghost predicate AsksFor(r: Rerun, d: int) {
    r.Watch? && CoversIndex(r.watch.dbIndex, d)
  }

  /** `rs[i]` is the newest watch request that index `k` stands for. */
  ghost predicate NewestFor(rs: seq<Rerun>, k: int, i: int) {
    && 0 <= i < |rs| && rs[i].Watch? && CoversIndex(k, rs[i].watch.dbIndex)
    && forall j :: i < j < |rs| && rs[j].Watch? ==> !CoversIndex(k, rs[j].watch.dbIndex)
  }

  ghost predicate NewestHead(rs: seq<Rerun>, h: HeadRerun, i: int) {
    0 <= i < |rs| && rs[i] == Head(h) && forall j :: i < j < |rs| ==> rs[j].Watch?
  }

  ghost predicate QueueCovers(m: map<int, WatchRerun>, d: int) {
    exists k :: k in m && CoversIndex(k, d)
  }

  ghost predicate Requested(rs: seq<Rerun>, d: int) {
    exists i :: 0 <= i < |rs| && AsksFor(rs[i], d)
  }

  ghost predicate QueueExact(rs: seq<Rerun>, e: Entry) {
    && WellKeyed(e)
    // the queue covers exactly the union of the requested databases
    && (forall d :: QueueCovers(e.watchReruns, d) <==> Requested(rs, d))
    // each queued rerun is the newest request it absorbed
    && (forall k :: k in e.watchReruns ==>
          exists i :: NewestFor(rs, k, i) && e.watchReruns[k] == rs[i].watch.(dbIndex := k))
    // the latest HEAD request is kept, and one is kept whenever one came
    && (e.headRerun.Some? ==> exists i :: NewestHead(rs, e.headRerun.value, i))
    && (e.headRerun.None? ==> forall i :: 0 <= i < |rs| ==> rs[i].Watch?)
  }

  lemma NewestGrows(rs: seq<Rerun>, r: Rerun, k: int, i: int)
    requires NewestFor(rs, k, i) && (r.Watch? ==> !CoversIndex(k, r.watch.dbIndex))
    ensures NewestFor(rs + [r], k, i)
  {
  }

  lemma AsksForGrows(rs: seq<Rerun>, r: Rerun, d: int)
    ensures Requested(rs + [r], d) <==> Requested(rs, d) || AsksFor(r, d)
  {
    var all := rs + [r];
    if i :| 0 <= i < |all| && AsksFor(all[i], d) {
      if i < |rs| {
        assert all[i] == rs[i];
      }
    }
    if i :| 0 <= i < |rs| && AsksFor(rs[i], d) {
      assert all[i] == rs[i];
    }
    if AsksFor(r, d) {
      assert all[|rs|] == r;
    }
  }

  /** Coalescing is exact for every sequence of requests. */
  lemma {:induction false} CoalescingIsExact(rs: seq<Rerun>)
    ensures QueueExact(rs, EnqueueAll(rs))
  {
    if rs != [] {
      var front, r := rs[..|rs| - 1], rs[|rs| - 1];
      assert rs == front + [r];
      CoalescingIsExact(front);
      if r.Head? {
        HeadStepIsExact(front, r);
      } else {
        WatchStepIsExact(front, r);
      }
    }
  }

  lemma HeadStepIsExact(rs: seq<Rerun>, r: Rerun)
    requires r.Head? && QueueExact(rs, EnqueueAll(rs))
    ensures QueueExact(rs + [r], Enqueue(EnqueueAll(rs), r))
  {
    var e, all := EnqueueAll(rs), rs + [r];
    var e' := Enqueue(e, r);
    forall d ensures QueueCovers(e'.watchReruns, d) <==> Requested(all, d) {
      AsksForGrows(rs, r, d);
    }
    forall k | k in e'.watchReruns
      ensures exists i :: NewestFor(all, k, i) && e'.watchReruns[k] == all[i].watch.(dbIndex := k)
    {
      var i :| NewestFor(rs, k, i) && e.watchReruns[k] == rs[i].watch.(dbIndex := k);
      NewestGrows(rs, r, k, i);
      assert all[i] == rs[i];
    }
    assert NewestHead(all, r.head, |rs|);
  }

  lemma WatchStepIsExact(rs: seq<Rerun>, r: Rerun)
    requires r.Watch? && QueueExact(rs, EnqueueAll(rs))
    ensures QueueExact(rs + [r], Enqueue(EnqueueAll(rs), r))
  {
    var e, all := EnqueueAll(rs), rs + [r];
    var e' := Enqueue(e, r);
    EnqueueKeepsKeys(e, r);
    var slot := if ALL in e.watchReruns then ALL else r.watch.dbIndex;
    assert all[|rs|] == r;
    assert NewestFor(all, slot, |rs|) && e'.watchReruns[slot] == r.watch.(dbIndex := slot);
    forall d ensures QueueCovers(e'.watchReruns, d) <==> Requested(all, d) {
      AsksForGrows(rs, r, d);
      assert slot in e'.watchReruns;
      WatchStepCoverage(e, r.watch, d);
    }
    forall k | k in e'.watchReruns
      ensures exists i :: NewestFor(all, k, i) && e'.watchReruns[k] == all[i].watch.(dbIndex := k)
    {
      if k != slot {
        assert k in e.watchReruns && k != ALL && ALL !in e.watchReruns;
        var i :| NewestFor(rs, k, i) && e.watchReruns[k] == rs[i].watch.(dbIndex := k);
        NewestGrows(rs, r, k, i);
        assert all[i] == rs[i];
      }
    }
    if e'.headRerun.Some? {
      var i :| NewestHead(rs, e.headRerun.value, i);
      assert NewestHead(all, e.headRerun.value, i);
    }
  }

  lemma WatchStepCoverage(e: Entry, r: WatchRerun, d: int)
    requires WellKeyed(e)
    ensures QueueCovers(QueueWatch(e, r).watchReruns, d)
       <==> QueueCovers(e.watchReruns, d) || CoversIndex(r.dbIndex, d)
  {
    var e' := QueueWatch(e, r);
    var slot := if ALL in e.watchReruns then ALL else r.dbIndex;
    assert slot in e'.watchReruns;
    if k :| k in e'.watchReruns && CoversIndex(k, d) {
      assert k in e.watchReruns || k == r.dbIndex;
    }
    if k :| k in e.watchReruns && CoversIndex(k, d) {
      assert k in e'.watchReruns || CoversIndex(slot, d);
    }
  }

  // ------------------------------------------------------------ the handback

  ghost predicate IndexOrdered(rs: seq<WatchRerun>) {
    forall i, j :: 0 <= i < j < |rs| ==> rs[i].dbIndex < rs[j].dbIndex
  }

  lemma InKeyOrderAt(m: map<int, WatchRerun>, i: nat)
    requires i < |InKeyOrder(m)|
    ensures |Ascending(m.Keys)| == |InKeyOrder(m)| == |m|
    ensures var k := Ascending(m.Keys)[i]; k in m && InKeyOrder(m)[i] == m[k]
  {
    assert Ascending(m.Keys)[i] in Ascending(m.Keys);
  }

  lemma InKeyOrderHas(m: map<int, WatchRerun>, k: int)
    requires k in m
    ensures m[k] in InKeyOrder(m)
  {
    var ks := Ascending(m.Keys);
    assert k in ks;
    var i :| 0 <= i < |ks| && ks[i] == k;
    InKeyOrderAt(m, i);
  }

  lemma InKeyOrderIsSorted(m: map<int, WatchRerun>)
    requires forall k :: k in m ==> m[k].dbIndex == k
    ensures IndexOrdered(InKeyOrder(m))
    ensures forall k :: k in m ==> m[k] in InKeyOrder(m)
    ensures forall r :: r in InKeyOrder(m) ==> r.dbIndex in m && m[r.dbIndex] == r
    ensures |InKeyOrder(m)| == |m|
  {
    var ks, rs := Ascending(m.Keys), InKeyOrder(m);
    forall i | 0 <= i < |rs| ensures ks[i] in m && rs[i] == m[ks[i]] {
      InKeyOrderAt(m, i);
    }
    forall k | k in m ensures m[k] in rs {
      InKeyOrderHas(m, k);
    }
  }

  /** What a release returns: the latest HEAD rerun alone, or the queued watch
      reruns, each once, in strictly increasing index order. */
  lemma HandbackIsOrdered(e: Entry)
    requires WellKeyed(e)
    ensures e.headRerun.Some? ==> Handback(e) == QueuedReruns(e.headRerun, [])
    ensures e.headRerun.None? ==>
              && Handback(e).head.None?
              && IndexOrdered(Handback(e).watch)
              && multiset(Handback(e).watch) == multiset(e.watchReruns.Values)
  {
    if e.headRerun.None? {
      var m, rs := e.watchReruns, Handback(e).watch;
      InKeyOrderIsSorted(m);
      forall r ensures multiset(rs)[r] == multiset(m.Values)[r] {
        DistinctCount(rs, r);
        assert r in rs <==> r in m.Values;
      }
    }
  }

  lemma {:induction false} DistinctCount(rs: seq<WatchRerun>, r: WatchRerun)
    requires IndexOrdered(rs)
    ensures multiset(rs)[r] == if r in rs then 1 else 0
  {
    if rs != [] {
      assert rs == [rs[0]] + rs[1..];
      DistinctCount(rs[1..], r);
      assert r == rs[0] ==> r !in rs[1..];
    }
  }

  /** The reruns a release replays, in replay order. */
  function ReplayList(q: QueuedReruns): seq<Rerun> {
    if q.head.Some? then [Head(q.head.value)]
    else seq(|q.watch|, i requires 0 <= i < |q.watch| => Watch(q.watch[i]))
  }

  ghost predicate InIndexOrder(rs: seq<Rerun>) {
    && (forall i :: 0 <= i < |rs| ==> rs[i].Watch?)
    && forall i, j :: 0 <= i < j < |rs| ==> rs[i].watch.dbIndex < rs[j].watch.dbIndex
  }

  /** What a release replays is what was queued, unchanged: the HEAD request alone,
      or every queued watch request once, in index order. */
  lemma ReplaysTheQueue(e: Entry)
    requires WellKeyed(e)
    ensures var list := ReplayList(Handback(e));
            if e.headRerun.Some? then list == [Head(e.headRerun.value)]
            else
              && InIndexOrder(list) && |list| == |e.watchReruns|
              && (forall i :: 0 <= i < |list| ==>
                    list[i].watch.dbIndex in e.watchReruns && e.watchReruns[list[i].watch.dbIndex] == list[i].watch)
              && (forall k :: k in e.watchReruns ==> Watch(e.watchReruns[k]) in list)
  {
    if e.headRerun.None? {
      var list, rs := ReplayList(Handback(e)), InKeyOrder(e.watchReruns);
      InKeyOrderIsSorted(e.watchReruns);
      assert |list| == |rs| && forall i :: 0 <= i < |rs| ==> list[i] == Watch(rs[i]);
      WatchList(rs, list, e.watchReruns);
    }
  }

  lemma WatchList(rs: seq<WatchRerun>, list: seq<Rerun>, m: map<int, WatchRerun>)
    requires |list| == |rs| && IndexOrdered(rs) && forall i :: 0 <= i < |rs| ==> list[i] == Watch(rs[i])
    requires forall k :: k in m ==> m[k] in rs
    requires forall r :: r in rs ==> r.dbIndex in m && m[r.dbIndex] == r
    ensures InIndexOrder(list) && forall k :: k in m ==> Watch(m[k]) in list
    ensures forall i :: 0 <= i < |list| ==> list[i].watch.dbIndex in m && m[list[i].watch.dbIndex] == list[i].watch
  {
    forall i | 0 <= i < |list| ensures list[i].watch.dbIndex in m && m[list[i].watch.dbIndex] == list[i].watch {
      assert rs[i] in rs;
    }
    forall k | k in m ensures Watch(m[k]) in list {
      var i :| 0 <= i < |rs| && rs[i] == m[k];
      assert list[i] == Watch(m[k]);
    }
  }

  /** Releasing loses nothing. */
  lemma HandbackCovers(e: Entry, want: Rerun)
    requires WellKeyed(e) && EntryCovers(e, want)
    ensures ListCovers(ReplayList(Handback(e)), want)
  {
    var list := ReplayList(Handback(e));
    if e.headRerun.Some? {
      assert Covers(list[0], want);
    } else {
      InKeyOrderIsSorted(e.watchReruns);
      var k :| k in e.watchReruns && CoversIndex(k, want.watch.dbIndex);
      assert e.watchReruns[k] in InKeyOrder(e.watchReruns);
      var i :| 0 <= i < |InKeyOrder(e.watchReruns)| && InKeyOrder(e.watchReruns)[i] == e.watchReruns[k];
      assert Covers(list[i], want);
    }
  }

  function QueueSize(e: Entry): nat {
    |e.watchReruns| + if e.headRerun.Some? then 1 else 0
  }

  lemma EnqueueSize(e: Entry, r: Rerun)
    ensures QueueSize(Enqueue(e, r)) <= QueueSize(e) + 1
  {
    if r.Watch? && ALL !in e.watchReruns && r.watch.dbIndex != ALL {
      var k := r.watch.dbIndex;
      assert e.watchReruns[k := r.watch].Keys == e.watchReruns.Keys + {k};
    } else if r.Watch? && ALL in e.watchReruns {
      assert e.watchReruns[ALL := r.watch.(dbIndex := ALL)].Keys == e.watchReruns.Keys;
    }
  }

  lemma HandbackSize(e: Entry)
    requires WellKeyed(e)
    ensures |ReplayList(Handback(e))| <= QueueSize(e)
  {
    if e.headRerun.None? {
      InKeyOrderIsSorted(e.watchReruns);
    }
  }

  // ----------------------------------------------- the daemon's bookkeeping

  /** The fields of State that inFlightMu guards; every method body is one
      critical section. */
  class InFlight {
    var finalizes: map<string, Entry>
    var teardowns: set<string>

    ghost predicate Valid() reads this {
      forall p :: p in finalizes ==> WellKeyed(finalizes[p])
    }

    constructor ()
      ensures Valid() && finalizes == map[] && teardowns == {}
    {
      finalizes := map[];
      teardowns := {};
    }

    method MarkTeardownInFlight(wtPath: string) returns (marked: bool)
      requires Valid()
      modifies this`teardowns
      ensures Valid()
      ensures marked <==> wtPath !in old(teardowns)
      ensures teardowns == old(teardowns) + {wtPath}
    {
      if wtPath in teardowns {
        return false;
      }
      teardowns := teardowns + {wtPath};
      return true;
    }

    method UnmarkTeardownInFlight(wtPath: string)
      requires Valid()
      modifies this`teardowns
      ensures Valid() && teardowns == old(teardowns) - {wtPath}
    {
      teardowns := teardowns - {wtPath};
    }

    method MarkFinalizeInFlight(wtPath: string) returns (claimed: bool)
      requires Valid()
      modifies this`finalizes
      ensures Valid()
      ensures claimed <==> wtPath !in old(finalizes)
      ensures finalizes == if claimed then old(finalizes)[wtPath := IDLE] else old(finalizes)
    {
      if wtPath in finalizes {
        return false;
      }
      finalizes := finalizes[wtPath := IDLE];
      return true;
    }

    method MarkFinalizeInFlightOrQueue(wtPath: string, r: WatchRerun) returns (claimed: bool)
      requires Valid()
      modifies this`finalizes
      ensures Valid()
      ensures claimed <==> wtPath !in old(finalizes)
      ensures finalizes == if claimed then old(finalizes)[wtPath := IDLE]
                           else old(finalizes)[wtPath := Enqueue(old(finalizes)[wtPath], Watch(r))]
    {
      claimed := MarkFinalizeInFlight(wtPath);
      if !claimed {
        var entry := finalizes[wtPath];
        EnqueueKeepsKeys(entry, Watch(r));
        var queued := r;
        var reruns := entry.watchReruns;
        if ALL in reruns {
          queued := r.(dbIndex := ALL);
        } else if r.dbIndex == ALL {
          reruns := map[];
        }
        reruns := reruns[queued.dbIndex := queued];
        finalizes := finalizes[wtPath := entry.(watchReruns := reruns)];
      }
    }

    method MarkFinalizeInFlightOrQueueHead(wtPath: string, r: HeadRerun) returns (claimed: bool)
      requires Valid()
      modifies this`finalizes
      ensures Valid()
      ensures claimed <==> wtPath !in old(finalizes)
      ensures finalizes == if claimed then old(finalizes)[wtPath := IDLE]
                           else old(finalizes)[wtPath := Enqueue(old(finalizes)[wtPath], Head(r))]
    {
      claimed := MarkFinalizeInFlight(wtPath);
      if !claimed {
        finalizes := finalizes[wtPath := finalizes[wtPath].(headRerun := Some(r))];
      }
    }

    /** A path that is not in flight hands back nothing. */
    method UnmarkFinalizeInFlight(wtPath: string) returns (q: QueuedReruns)
      requires Valid()
      modifies this`finalizes
      ensures Valid() && finalizes == old(finalizes) - {wtPath}
      ensures q == Handback(if wtPath in old(finalizes) then old(finalizes)[wtPath] else IDLE)
    {
      var entry := if wtPath in finalizes then finalizes[wtPath] else IDLE;
      finalizes := finalizes - {wtPath};
      if entry.headRerun.Some? {
        return QueuedReruns(entry.headRerun, []);
      }
      return QueuedReruns(None, InKeyOrder(entry.watchReruns));
    }
  }
}
