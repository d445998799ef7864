/** The HEAD watcher's fire step (internal/daemon/head_watcher.go).

    A sample is what one firing reads: the trimmed HEAD ("" when it cannot be
    read) and the git operation in progress ("" when there is none). */
module HeadWatcher {
  import opened Prelude

  datatype Sample = Sample(head: string, op: string)

  datatype Memory = Memory(lastSeen: string, lastOp: string)

  /** What Start seeds from its first reads. */
  function Seed(first: Sample): Memory {
    Memory(first.head, first.op)
  }

  function Remember(m: Memory, s: Sample): Memory {
    Memory(if s.head != "" then s.head else m.lastSeen, s.op)
  }

  /** The ref onChange is called with, if it is called. */
  function Dispatched(m: Memory, s: Sample): Option<string> {
    if s.op != "" then None
    else if m.lastOp != "" then Some(s.head)
    else if s.head != "" && s.head != m.lastSeen then Some(s.head)
    else None
  }

  class Watcher {
    var lastSeen: string
    var lastOp: string
    /** The refs onChange was called with, oldest first. */
    var calls: seq<string>

    constructor Start(first: Sample)
      ensures Memory(lastSeen, lastOp) == Seed(first) && calls == []
    {
      lastSeen, lastOp, calls := first.head, first.op, [];
    }

    method Fire(cur: string, curOp: string)
      modifies this
      ensures Memory(lastSeen, lastOp) == Remember(old(Memory(lastSeen, lastOp)), Sample(cur, curOp))
      ensures var d := Dispatched(old(Memory(lastSeen, lastOp)), Sample(cur, curOp));
              calls == old(calls) + if d.Some? then [d.value] else []
    {
      var prev, prevOp := lastSeen, lastOp;
      var headChanged := cur != "" && cur != prev;
      if cur != "" {
        lastSeen := cur;
      }
      lastOp := curOp;
      if curOp != "" {
      } else if prevOp != "" {
        calls := calls + [cur];
      } else if headChanged {
        calls := calls + [cur];
      }
    }
  }

  // ----------------------------------------------------------- whole runs

  /** The memory after the first `n` samples. */
  function After(first: Sample, samples: seq<Sample>, n: nat): Memory
    requires n <= |samples|
  {
    if n == 0 then Seed(first) else Remember(After(first, samples, n - 1), samples[n - 1])
  }

  /** Sample `i` caused a call. */
  predicate FiresAt(first: Sample, samples: seq<Sample>, i: nat)
    requires i < |samples|
  {
    Dispatched(After(first, samples, i), samples[i]).Some?
  }

  /** The ref of the call that sample `i` caused. */
  function CallAt(first: Sample, samples: seq<Sample>, i: nat): Option<string>
    requires i < |samples|
  {
    Dispatched(After(first, samples, i), samples[i])
  }

  predicate BusyBefore(first: Sample, samples: seq<Sample>, i: nat)
    requires i < |samples|
  {
    if i == 0 then first.op != "" else samples[i - 1].op != ""
  }

  /** `h` is the newest readable HEAD among the seed and the first `n` samples
      (the seed itself when none was readable). */
  ghost predicate NewestReadable(first: Sample, samples: seq<Sample>, n: nat, h: string)
    requires n <= |samples|
  {
    || (h == first.head && forall i :: 0 <= i < n ==> samples[i].head == "")
    || (exists i :: 0 <= i < n && samples[i].head == h != "" && forall j :: i < j < n ==> samples[j].head == "")
  }

  lemma {:induction false} RemembersNewest(first: Sample, samples: seq<Sample>, n: nat)
    requires n <= |samples|
    ensures NewestReadable(first, samples, n, After(first, samples, n).lastSeen)
    ensures After(first, samples, n).lastOp == if n == 0 then first.op else samples[n - 1].op
  {
    if n > 0 {
      RemembersNewest(first, samples, n - 1);
      if samples[n - 1].head == "" && !(forall i :: 0 <= i < n - 1 ==> samples[i].head == "") {
        var h := After(first, samples, n - 1).lastSeen;
        assert After(first, samples, n).lastSeen == h;
      }
    }
  }

  /** Exactly when a sample causes a call: never while an operation is in
      progress, always on the first clean sample after one (HEAD moved or not),
      otherwise when a readable HEAD differs from the newest one read before. The
      call carries the HEAD that sample read. */
  lemma FiresExactly(first: Sample, samples: seq<Sample>, i: nat, h: string)
    requires i < |samples| && NewestReadable(first, samples, i, h)
    ensures FiresAt(first, samples, i) <==>
            && samples[i].op == ""
            && (BusyBefore(first, samples, i) || (samples[i].head != "" && samples[i].head != h))
    ensures FiresAt(first, samples, i) ==> CallAt(first, samples, i) == Some(samples[i].head)
  {
    RemembersNewest(first, samples, i);
    UniqueNewest(first, samples, i, h, After(first, samples, i).lastSeen);
  }

  lemma UniqueNewest(first: Sample, samples: seq<Sample>, n: nat, h: string, k: string)
    requires n <= |samples| && NewestReadable(first, samples, n, h) && NewestReadable(first, samples, n, k)
    ensures h == k
  {
  }

  /** The calls caught up: at the last call no later than sample `n - 1` the
      watcher had read exactly the HEAD it now remembers, or it never called and
      still remembers the seed. */
  ghost predicate CaughtUp(first: Sample, samples: seq<Sample>, n: nat)
    requires n <= |samples|
  {
    var seen := After(first, samples, n).lastSeen;
    || (seen == first.head && forall i :: 0 <= i < n ==> !FiresAt(first, samples, i))
    || (exists i :: 0 <= i < n && FiresAt(first, samples, i)
                    && After(first, samples, i + 1).lastSeen == seen
                    && forall j :: i < j < n ==> !FiresAt(first, samples, j))
  }

  lemma QuietSample(first: Sample, samples: seq<Sample>, n: nat)
    requires 0 < n <= |samples| && samples[n - 1].op == "" && !FiresAt(first, samples, n - 1)
    requires CaughtUp(first, samples, n - 1)
    ensures CaughtUp(first, samples, n)
  {
    assert After(first, samples, n).lastSeen == After(first, samples, n - 1).lastSeen;
  }

  /** The watcher misses nothing: after every clean sample the calls are caught
      up, however many unreadable samples and operations came before. */
  lemma {:induction false} MissesNothing(first: Sample, samples: seq<Sample>, n: nat)
    requires n <= |samples|
    requires if n == 0 then first.op == "" else samples[n - 1].op == ""
    ensures CaughtUp(first, samples, n)
  {
    if n > 0 && !FiresAt(first, samples, n - 1) {
      RemembersNewest(first, samples, n - 1);
      MissesNothing(first, samples, n - 1);
      QuietSample(first, samples, n);
    }
  }
}
