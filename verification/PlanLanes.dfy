/** The plan executor (internal/daemon/plan.go): task groups run as parallel
    lanes, each lane stopping at its first failure. */
module PlanLanes {
  import opened Prelude

  /** How a runner ends. */
  datatype Ending = Returned(payload: string) | Errored(payload: string, message: string) | Panicked(value: string)

  datatype Task = Task(kind: string, ending: Ending)

  datatype TaskResult = TaskResult(kind: string, ok: bool, payload: string, message: string)

  /** runOneTask and the lane's bookkeeping: a panic surfaces as a failure. */
  function Outcome(task: Task): TaskResult {
    match task.ending
    case Returned(payload) => TaskResult(task.kind, true, payload, "")
    case Errored(payload, message) => TaskResult(task.kind, false, payload, message)
    case Panicked(value) => TaskResult(task.kind, false, "", "plan:task panicked: " + value)
  }

  // --------------------------------------------------------------- the lanes

  type Lanes = seq<seq<Task>>
  type Progress = seq<seq<TaskResult>>

  predicate Stopped(lane: seq<Task>, done: seq<TaskResult>) {
    |done| >= |lane| || (done != [] && !done[|done| - 1].ok)
  }

  /** One step: lane `i` runs its next task to its end. */
  predicate Enabled(lanes: Lanes, p: Progress, i: nat) {
    i < |lanes| == |p| && !Stopped(lanes[i], p[i])
  }

  function Apply(lanes: Lanes, p: Progress, i: nat): Progress
    requires Enabled(lanes, p, i)
  {
    p[i := p[i] + [Outcome(lanes[i][|p[i]|])]]
  }

  ghost function Exec(lanes: Lanes, tr: seq<nat>): Option<Progress> {
    if tr == [] then Some(seq(|lanes|, i => []))
    else
      var before := Exec(lanes, tr[..|tr| - 1]);
      if before.Some? && Enabled(lanes, before.value, tr[|tr| - 1])
      then Some(Apply(lanes, before.value, tr[|tr| - 1])) else None
  }

  /** Every lane has stopped: the executor's wait is over. */
  ghost predicate AllStopped(lanes: Lanes, p: Progress) {
    |p| == |lanes| && forall i :: 0 <= i < |lanes| ==> Stopped(lanes[i], p[i])
  }

  // ----------------------------------------------------------- determinism

  function Results(lane: seq<Task>): seq<TaskResult> {
    seq(|lane|, i requires 0 <= i < |lane| => Outcome(lane[i]))
  }

  /** The lane ran exactly up to and including its first failure, or to its end. */
  ghost predicate ThroughFirstFailure(lane: seq<Task>, done: seq<TaskResult>) {
    && done <= Results(lane)
    && (forall i :: 0 <= i < |done| - 1 ==> done[i].ok)
    && (|done| == |lane| || (done != [] && !done[|done| - 1].ok))
  }

  lemma ThroughFirstFailureIsUnique(lane: seq<Task>, a: seq<TaskResult>, b: seq<TaskResult>)
    requires ThroughFirstFailure(lane, a) && ThroughFirstFailure(lane, b)
    ensures a == b
  {
    forall j | 0 <= j < |a| && j < |b| ensures a[j] == b[j] {
      assert a[j] == Results(lane)[j];
    }
  }

  ghost predicate Sound(lanes: Lanes, p: Progress) {
    && |p| == |lanes|
    && forall i :: 0 <= i < |lanes| ==>
         p[i] <= Results(lanes[i]) && forall j :: 0 <= j < |p[i]| - 1 ==> p[i][j].ok
  }

  lemma {:induction false} AlwaysSound(lanes: Lanes, tr: seq<nat>)
    requires Exec(lanes, tr).Some?
    ensures Sound(lanes, Exec(lanes, tr).value)
  {
    if tr != [] {
      var front, i := tr[..|tr| - 1], tr[|tr| - 1];
      AlwaysSound(lanes, front);
      var p, p' := Exec(lanes, front).value, Exec(lanes, tr).value;
      assert p'[i] <= Results(lanes[i]);
      forall j | 0 <= j < |p'[i]| - 1 ensures p'[i][j].ok {
        assert p'[i][j] == p[i][j];
      }
    }
  }

  /** Whatever the interleaving, a finished plan's lanes each ran through their
      first failure, so its result list does not depend on the scheduling. */
  lemma PlanIsDeterministic(lanes: Lanes, tr: seq<nat>, other: seq<nat>)
    requires Exec(lanes, tr).Some? && AllStopped(lanes, Exec(lanes, tr).value)
    requires Exec(lanes, other).Some? && AllStopped(lanes, Exec(lanes, other).value)
    ensures forall i :: 0 <= i < |lanes| ==> ThroughFirstFailure(lanes[i], Exec(lanes, tr).value[i])
    ensures Concat(Exec(lanes, tr).value) == Concat(Exec(lanes, other).value)
  {
    AlwaysSound(lanes, tr);
    AlwaysSound(lanes, other);
    var p, q := Exec(lanes, tr).value, Exec(lanes, other).value;
    forall i | 0 <= i < |lanes| ensures p[i] == q[i] {
      ThroughFirstFailureIsUnique(lanes[i], p[i], q[i]);
    }
    assert p == q;
  }

  function TasksLeft(lanes: Lanes, p: Progress): int
    requires |p| == |lanes|
  {
    if lanes == [] then 0
    else TasksLeft(lanes[..|lanes| - 1], p[..|p| - 1]) + |lanes[|lanes| - 1]| - |p[|p| - 1]|
  }

  /** Every step uses up a task, so every schedule ends. */
  lemma {:induction false} StepsEnd(lanes: Lanes, p: Progress, i: nat)
    requires Sound(lanes, p) && Enabled(lanes, p, i)
    ensures 0 <= TasksLeft(lanes, Apply(lanes, p, i)) < TasksLeft(lanes, p)
  {
    var n := |lanes| - 1;
    var p' := Apply(lanes, p, i);
    assert Sound(lanes[..n], p[..n]);
    if i < n {
      StepsEnd(lanes[..n], p[..n], i);
      assert p'[..n] == Apply(lanes[..n], p[..n], i);
    } else {
      assert p'[..n] == p[..n];
      LeftIsNatural(lanes[..n], p[..n]);
    }
  }

  lemma {:induction false} LeftIsNatural(lanes: Lanes, p: Progress)
    requires Sound(lanes, p)
    ensures 0 <= TasksLeft(lanes, p)
  {
    if lanes != [] {
      var n := |lanes| - 1;
      assert Sound(lanes[..n], p[..n]);
      LeftIsNatural(lanes[..n], p[..n]);
      assert |p[n]| <= |lanes[n]|;
    }
  }

  // ----------------------------------------------------------- the result list

  /** The loop that concatenates laneResults. */
  method Collect(laneResults: Progress) returns (results: seq<TaskResult>)
    ensures results == Concat(laneResults)
  {
    results := [];
    for i := 0 to |laneResults|
      invariant results == Concat(laneResults[..i])
    {
      assert laneResults[..i + 1] == laneResults[..i] + [laneResults[i]];
      ConcatSnoc(laneResults[..i], laneResults[i]);
      results := results + laneResults[i];
    }
    assert laneResults[..|laneResults|] == laneResults;
  }

  method FirstFailure(results: seq<TaskResult>) returns (msg: string)
    ensures msg == "" <==> forall r :: r in results ==> r.ok
    ensures msg != "" ==> exists k :: 0 <= k < |results| && !results[k].ok
                                      && (forall j :: 0 <= j < k ==> results[j].ok)
                                      && msg == results[k].kind + ": " + results[k].message
  {
    for k := 0 to |results|
      invariant forall j :: 0 <= j < k ==> results[j].ok
    {
      if !results[k].ok {
        assert results[k] in results;
        return results[k].kind + ": " + results[k].message;
      }
    }
    return "";
  }

  lemma {:induction false} InConcat(p: Progress, r: TaskResult)
    ensures r in Concat(p) <==> exists i :: 0 <= i < |p| && r in p[i]
  {
    if p != [] {
      var rest := p[1..];
      InConcat(rest, r);
      if i :| 0 <= i < |p| && r in p[i] {
        assert i > 0 ==> rest[i - 1] == p[i];
      }
      if i :| 0 <= i < |rest| && r in rest[i] {
        assert p[i + 1] == rest[i];
      }
    }
  }

  /** What one result must say of its task's ending. */
  ghost predicate Reports(r: TaskResult, task: Task) {
    && r.kind == task.kind
    && match task.ending
       case Returned(payload) => r.ok && r.payload == payload && r.message == ""
       case Errored(payload, message) => !r.ok && r.payload == payload && r.message == message
       case Panicked(value) => !r.ok && r.payload == "" && r.message == "plan:task panicked: " + value
  }

  /** In every finished plan the results of a lane report its tasks' endings, in
      order; all but the last returned, and the lane ends at its last task or at one
      that failed or panicked. */
  lemma EndingsAreReported(lanes: Lanes, tr: seq<nat>, i: nat)
    requires Exec(lanes, tr).Some? && AllStopped(lanes, Exec(lanes, tr).value) && i < |lanes|
    ensures var done := Exec(lanes, tr).value[i];
            && |done| <= |lanes[i]|
            && (forall k :: 0 <= k < |done| ==> Reports(done[k], lanes[i][k]))
            && (forall k :: 0 <= k < |done| - 1 ==> lanes[i][k].ending.Returned?)
            && (|done| < |lanes[i]| ==> done != [] && !lanes[i][|done| - 1].ending.Returned?)
  {
    AlwaysSound(lanes, tr);
    var done := Exec(lanes, tr).value[i];
    forall k | 0 <= k < |done| ensures done[k] == Outcome(lanes[i][k]) {
      assert done[k] == Results(lanes[i])[k];
    }
  }

  /** No failure among the results of a finished plan exactly when every submitted
      task returned without error, and then every one ran. */
  lemma AllOkExactly(lanes: Lanes, tr: seq<nat>)
    requires Exec(lanes, tr).Some? && AllStopped(lanes, Exec(lanes, tr).value)
    ensures (forall r: TaskResult :: r in Concat(Exec(lanes, tr).value) ==> r.ok)
       <==> (forall i, k :: 0 <= i < |lanes| && 0 <= k < |lanes[i]| ==> lanes[i][k].ending.Returned?)
    ensures (forall r: TaskResult :: r in Concat(Exec(lanes, tr).value) ==> r.ok)
        ==> forall i :: 0 <= i < |lanes| ==> |Exec(lanes, tr).value[i]| == |lanes[i]|
  {
    AlwaysSound(lanes, tr);
    var p := Exec(lanes, tr).value;
    forall i | 0 <= i < |lanes|
      ensures |p[i]| <= |lanes[i]| && forall k :: 0 <= k < |p[i]| ==> Reports(p[i][k], lanes[i][k])
      ensures |p[i]| < |lanes[i]| ==> p[i] != [] && !p[i][|p[i]| - 1].ok
    {
      EndingsAreReported(lanes, tr, i);
    }
    if forall r: TaskResult :: r in Concat(p) ==> r.ok {
      forall i, k | 0 <= i < |p| && 0 <= k < |p[i]| ensures p[i][k].ok {
        InConcat(p, p[i][k]);
      }
    } else {
      var r :| r in Concat(p) && !r.ok;
      InConcat(p, r);
      var i :| 0 <= i < |p| && r in p[i];
      var k :| 0 <= k < |p[i]| && p[i][k] == r;
      assert Reports(p[i][k], lanes[i][k]);
    }
  }
}
