/** Config files and their `include:` lists (internal/config/config.go).

    Paths are the cleaned absolute paths the loader compares; a file's include
    list is already resolved against its directory. */
module IncludeWalk {
  import opened Prelude

  type Path = string
  type Keys = map<string, string>

  datatype File =
    | Absent
    | Unreadable
    | Blank                                                    // nothing but white space
    | Malformed                                                // the include list does not parse
    | Yaml(includes: seq<Path>, keys: Keys, decodes: bool)     // what decoding it writes, even if it then fails

  type Files = map<Path, File>

  function FileAt(fs: Files, path: Path): File {
    if path in fs then fs[path] else Absent
  }

  function Includes(fs: Files, path: Path): seq<Path> {
    var f := FileAt(fs, path);
    if f.Yaml? then f.includes else []
  }

  /** Loading this file by itself fails. */
  predicate Broken(fs: Files, path: Path) {
    var f := FileAt(fs, path);
    f.Unreadable? || f.Malformed? || (f.Yaml? && !f.decodes)
  }

  datatype Outcome = Merged | IncludeCycle(path: Path) | BadFile(path: Path)

  /** `applied` are the files decoded into the config, in order; the last one may
      have failed on the way. */
  datatype Result = Result(outcome: Outcome, applied: seq<Path>)

  /** Everything some file includes. */
  function Targets(fs: Files): set<Path> {
    set p, i | p in fs && fs[p].Yaml? && 0 <= i < |fs[p].includes| :: fs[p].includes[i]
  }

  ghost function Unvisited(fs: Files, seen: seq<Path>): set<Path> {
    Targets(fs) - (set p | p in seen)
  }

  lemma VisitShrinks(fs: Files, path: Path, i: nat, seen: seq<Path>)
    requires i < |Includes(fs, path)| && Includes(fs, path)[i] !in seen
    ensures Unvisited(fs, seen + [Includes(fs, path)[i]]) < Unvisited(fs, seen)
  {
    assert Includes(fs, path)[i] in Targets(fs);
    assert Includes(fs, path)[i] in Unvisited(fs, seen);
    assert Includes(fs, path)[i] !in Unvisited(fs, seen + [Includes(fs, path)[i]]);
  }

  // ------------------------------------------------------------------- the walk

  /** mergeYAMLFile with the chain of includes that led here. */
  ghost function Walk(fs: Files, path: Path, seen: seq<Path>): Result
    decreases Unvisited(fs, seen), |Includes(fs, path)| + 1
  {
    match FileAt(fs, path)
    case Absent => Result(Merged, [])
    case Unreadable => Result(BadFile(path), [])
    case Blank => Result(Merged, [])
    case Malformed => Result(BadFile(path), [])
    case Yaml(includes, _, decodes) =>
      var below := WalkIncludes(fs, path, |includes|, seen);
      if !below.outcome.Merged? then below
      else Result(if decodes then Merged else BadFile(path), below.applied + [path])
  }

  /** The first `n` includes of `path`, stopping at the first error. */
  ghost function WalkIncludes(fs: Files, path: Path, n: nat, seen: seq<Path>): Result
    requires n <= |Includes(fs, path)|
    decreases Unvisited(fs, seen), n
  {
    if n == 0 then Result(Merged, [])
    else
      var before := WalkIncludes(fs, path, n - 1, seen);
      var inc := Includes(fs, path)[n - 1];
      if !before.outcome.Merged? then before
      else if inc in seen then Result(IncludeCycle(inc), before.applied)
      else
        VisitShrinks(fs, path, n - 1, seen);
        var r := Walk(fs, inc, seen + [inc]);
        Result(r.outcome, before.applied + r.applied)
  }

  /** Keys decoded on top of a config: later files win. */
  function Decoded(cfg: Keys, fs: Files, applied: seq<Path>): Keys {
    if applied == [] then cfg
    else
      var f := FileAt(fs, applied[|applied| - 1]);
      Decoded(cfg, fs, applied[..|applied| - 1]) + if f.Yaml? then f.keys else map[]
  }

  lemma {:induction false} DecodedOn(cfg: Keys, fs: Files, a: seq<Path>, b: seq<Path>)
    ensures Decoded(cfg, fs, a + b) == Decoded(Decoded(cfg, fs, a), fs, b)
  {
    if b == [] {
      assert a + b == a;
    } else {
      assert (a + b)[..|a + b| - 1] == a + b[..|b| - 1];
      DecodedOn(cfg, fs, a, b[..|b| - 1]);
    }
  }

  /** `keys` is what `start` became, with the first `n` includes merged. */
  ghost predicate MergedSoFar(fs: Files, path: Path, n: nat, seen: seq<Path>, start: Keys, keys: Keys)
    requires n <= |Includes(fs, path)|
  {
    var w := WalkIncludes(fs, path, n, seen);
    w.outcome.Merged? && keys == Decoded(start, fs, w.applied)
  }

  lemma CycleFound(fs: Files, path: Path, i: nat, seen: seq<Path>)
    requires i < |Includes(fs, path)| && Includes(fs, path)[i] in seen
    requires WalkIncludes(fs, path, i, seen).outcome.Merged?
    ensures WalkIncludes(fs, path, i + 1, seen)
         == Result(IncludeCycle(Includes(fs, path)[i]), WalkIncludes(fs, path, i, seen).applied)
  {
  }

  /** An include that fails makes the file fail. */
  lemma FailsAbove(fs: Files, path: Path, i: nat, seen: seq<Path>)
    requires i <= |Includes(fs, path)| && !WalkIncludes(fs, path, i, seen).outcome.Merged?
    ensures Walk(fs, path, seen) == WalkIncludes(fs, path, i, seen)
  {
    ErrorSticks(fs, path, i, |Includes(fs, path)|, seen);
  }

  lemma CycleStops(fs: Files, path: Path, i: nat, seen: seq<Path>)
    requires i < |Includes(fs, path)| && Includes(fs, path)[i] in seen
    requires WalkIncludes(fs, path, i, seen).outcome.Merged?
    ensures Walk(fs, path, seen)
         == Result(IncludeCycle(Includes(fs, path)[i]), WalkIncludes(fs, path, i, seen).applied)
  {
    CycleFound(fs, path, i, seen);
    FailsAbove(fs, path, i + 1, seen);
  }

  lemma OneMoreInclude(fs: Files, path: Path, i: nat, seen: seq<Path>)
    requires i < |Includes(fs, path)| && Includes(fs, path)[i] !in seen
    requires WalkIncludes(fs, path, i, seen).outcome.Merged?
    ensures var below := Walk(fs, Includes(fs, path)[i], seen + [Includes(fs, path)[i]]);
            WalkIncludes(fs, path, i + 1, seen)
            == Result(below.outcome, WalkIncludes(fs, path, i, seen).applied + below.applied)
  {
  }

  lemma IncludeStep(fs: Files, path: Path, i: nat, seen: seq<Path>, start: Keys, keys: Keys, below: Result)
    requires i < |Includes(fs, path)| && MergedSoFar(fs, path, i, seen, start, keys) && Includes(fs, path)[i] !in seen
    requires below == Walk(fs, Includes(fs, path)[i], seen + [Includes(fs, path)[i]])
    ensures below.outcome.Merged? ==> MergedSoFar(fs, path, i + 1, seen, start, Decoded(keys, fs, below.applied))
    ensures !below.outcome.Merged? ==>
              Walk(fs, path, seen).outcome == below.outcome
              && Decoded(keys, fs, below.applied) == Decoded(start, fs, Walk(fs, path, seen).applied)
  {
    OneMoreInclude(fs, path, i, seen);
    DecodedOn(start, fs, WalkIncludes(fs, path, i, seen).applied, below.applied);
    if !below.outcome.Merged? {
      FailsAbove(fs, path, i + 1, seen);
    }
  }

  lemma OwnKeys(fs: Files, path: Path, seen: seq<Path>, start: Keys, keys: Keys)
    requires FileAt(fs, path).Yaml? && MergedSoFar(fs, path, |Includes(fs, path)|, seen, start, keys)
    ensures var f := FileAt(fs, path);
            && Walk(fs, path, seen).outcome == (if f.decodes then Merged else BadFile(path))
            && Decoded(start, fs, Walk(fs, path, seen).applied) == keys + f.keys
  {
    var below := WalkIncludes(fs, path, |Includes(fs, path)|, seen).applied;
    assert (below + [path])[..|below|] == below;
  }

  /** The config the loader decodes into. */
  class Config {
    var keys: Keys

    constructor ()
      ensures keys == map[]
    {
      keys := map[];
    }

    method MergeYamlFile(fs: Files, path: Path, seen: seq<Path>) returns (r: Outcome)
      modifies this
      ensures r == Walk(fs, path, seen).outcome
      ensures keys == Decoded(old(keys), fs, Walk(fs, path, seen).applied)
      decreases Unvisited(fs, seen)
    {
      var f := FileAt(fs, path);
      if f.Absent? || f.Blank? {
        return Merged;
      }
      if f.Unreadable? || f.Malformed? {
        return BadFile(path);
      }
      ghost var start := keys;
      for i := 0 to |f.includes|
        invariant MergedSoFar(fs, path, i, seen, start, keys)
      {
        var inc := f.includes[i];
        if inc in seen {
          CycleStops(fs, path, i, seen);
          return IncludeCycle(inc);
        }
        VisitShrinks(fs, path, i, seen);
        ghost var before := keys;
        r := MergeYamlFile(fs, inc, seen + [inc]);
        IncludeStep(fs, path, i, seen, start, before, Walk(fs, inc, seen + [inc]));
        if !r.Merged? {
          return;
        }
      }
      OwnKeys(fs, path, seen, start, keys);
      keys := keys + f.keys;
      return if f.decodes then Merged else BadFile(path);
    }
  }

  lemma {:induction false} ErrorSticks(fs: Files, path: Path, i: nat, n: nat, seen: seq<Path>)
    requires i <= n <= |Includes(fs, path)| && !WalkIncludes(fs, path, i, seen).outcome.Merged?
    ensures WalkIncludes(fs, path, n, seen) == WalkIncludes(fs, path, i, seen)
    decreases n
  {
    if i < n {
      ErrorSticks(fs, path, i, n - 1, seen);
    }
  }

  // --------------------------------------------------------------------- cycles

  ghost predicate Chain(fs: Files, chain: seq<Path>) {
    && chain != []
    && forall i :: 0 <= i < |chain| - 1 ==> chain[i + 1] in Includes(fs, chain[i])
  }

  ghost predicate Repeats(chain: seq<Path>) {
    exists i, j :: 0 <= i < j < |chain| && chain[i] == chain[j]
  }

  /** Some chain of includes from `root` comes back to a file it already went
      through. */
  ghost predicate Cyclic(fs: Files, root: Path) {
    exists chain :: Chain(fs, chain) && chain[0] == root && Repeats(chain)
  }

  ghost predicate ReachesBroken(fs: Files, root: Path) {
    exists chain :: Chain(fs, chain) && chain[0] == root && Broken(fs, chain[|chain| - 1])
  }

  lemma {:induction false} MergedBelow(fs: Files, path: Path, n: nat, seen: seq<Path>, i: nat)
    requires i < n <= |Includes(fs, path)| && WalkIncludes(fs, path, n, seen).outcome.Merged?
    ensures Includes(fs, path)[i] !in seen
    ensures Walk(fs, Includes(fs, path)[i], seen + [Includes(fs, path)[i]]).outcome.Merged?
    decreases n
  {
    if i < n - 1 {
      MergedBelow(fs, path, n - 1, seen, i);
    }
  }

  /** A walk that succeeds met nothing on its chain, no file twice and no broken
      file, along every chain of includes. */
  lemma {:induction false} MergedMeans(fs: Files, path: Path, seen: seq<Path>, chain: seq<Path>)
    requires Walk(fs, path, seen).outcome.Merged? && Chain(fs, chain) && chain[0] == path
    ensures forall i :: 1 <= i < |chain| ==> chain[i] !in seen
    ensures !Repeats(chain[1..])
    ensures !Broken(fs, chain[|chain| - 1])
    decreases |chain|
  {
    if |chain| > 1 {
      var tail, inc := chain[1..], chain[1];
      assert chain[1] in Includes(fs, chain[0]);
      var k :| 0 <= k < |Includes(fs, path)| && Includes(fs, path)[k] == inc;
      MergedBelow(fs, path, |Includes(fs, path)|, seen, k);
      assert Chain(fs, tail) by {
        forall i | 0 <= i < |tail| - 1 ensures tail[i + 1] in Includes(fs, tail[i]) {
          assert chain[i + 2] in Includes(fs, chain[i + 1]);
        }
      }
      MergedMeans(fs, inc, seen + [inc], tail);
      forall i | 1 <= i < |chain| ensures chain[i] !in seen {
        if i > 1 {
          assert tail[i - 1] !in seen + [inc];
        }
      }
      forall i, j | 0 <= i < j < |tail| ensures tail[i] != tail[j] {
        if i == 0 {
          assert tail[j] !in seen + [inc];
        } else {
          assert tail[1..][i - 1] == tail[i] && tail[1..][j - 1] == tail[j];
        }
      }
    }
  }

  /** A success rules out a cycle through the root itself as well. */
  lemma MergedRoot(fs: Files, root: Path)
    requires Walk(fs, root, []).outcome.Merged?
    ensures !Cyclic(fs, root) && !ReachesBroken(fs, root)
  {
    forall chain | Chain(fs, chain) && chain[0] == root ensures !Repeats(chain) && !Broken(fs, chain[|chain| - 1]) {
      MergedMeans(fs, root, [], chain);
      forall i, j | 0 <= i < j < |chain| ensures chain[i] != chain[j] {
        if i > 0 {
          assert chain[1..][i - 1] == chain[i] && chain[1..][j - 1] == chain[j];
        } else {
          RootNotMetAgain(fs, root, chain, j);
        }
      }
    }
  }

  lemma RootNotMetAgain(fs: Files, root: Path, chain: seq<Path>, j: nat)
    requires Walk(fs, root, []).outcome.Merged?
    requires Chain(fs, chain) && chain[0] == root && 0 < j < |chain|
    ensures chain[j] != root
  {
    if chain[j] == root {
      // going round once more meets chain[1] twice
      var round := chain[..j + 1] + [chain[1]];
      assert Chain(fs, round);
      assert round[1..][0] == chain[1] == round[1..][j];
      assert Repeats(round[1..]);
      MergedMeans(fs, root, [], round);
    }
  }

  /** The walk succeeds exactly when no chain from the root repeats a file and
      none meets a broken one; a reported cycle is always real. */
  lemma WalkSucceedsExactly(fs: Files, root: Path)
    ensures Walk(fs, root, []).outcome.Merged? <==> !Cyclic(fs, root) && !ReachesBroken(fs, root)
    ensures Walk(fs, root, []).outcome.IncludeCycle? ==> Cyclic(fs, root)
  {
    match Walk(fs, root, []).outcome {
      case Merged => MergedRoot(fs, root);
      case BadFile(_) => BadFileMeans(fs, root, []);
      case IncludeCycle(_) =>
        var chain, at := CycleHasRoute(fs, root, []);
        assert Chain(fs, chain) && Repeats(chain);
    }
  }

  // ------------------------------------------------------------ which cycles show

  /** A chain of includes with the position of each include in its file's list. */
  ghost predicate Route(fs: Files, chain: seq<Path>, at: seq<nat>) {
    && |chain| == |at| + 1
    && forall k :: 0 <= k < |at| ==> at[k] < |Includes(fs, chain[k])| && chain[k + 1] == Includes(fs, chain[k])[at[k]]
  }

  /** Nothing included earlier than the route, at any file along it, leads to a
      broken file. */
  ghost predicate ClearBefore(fs: Files, chain: seq<Path>, at: seq<nat>)
    requires Route(fs, chain, at)
  {
    forall k, q :: 0 <= k < |at| && 0 <= q < at[k] ==> !ReachesBroken(fs, Includes(fs, chain[k])[q])
  }

  ghost predicate ClearRoute(fs: Files, chain: seq<Path>, at: seq<nat>) {
    Route(fs, chain, at) && ClearBefore(fs, chain, at)
  }

  /** A cycle that the walk comes to before any broken file. */
  ghost predicate CycleInView(fs: Files, root: Path) {
    exists chain, at :: ClearRoute(fs, chain, at) && chain[0] == root && Repeats(chain)
  }

  lemma BrokenBelow(fs: Files, path: Path, i: nat)
    requires i < |Includes(fs, path)| && ReachesBroken(fs, Includes(fs, path)[i])
    ensures ReachesBroken(fs, path)
  {
    var chain :| Chain(fs, chain) && chain[0] == Includes(fs, path)[i] && Broken(fs, chain[|chain| - 1]);
    var longer := [path] + chain;
    assert Chain(fs, longer) by {
      forall k | 0 <= k < |longer| - 1 ensures longer[k + 1] in Includes(fs, longer[k]) {
        assert k > 0 ==> longer[k + 1] == chain[k] && longer[k] == chain[k - 1];
      }
    }
    assert longer[|longer| - 1] == chain[|chain| - 1];
  }

  /** Where a walk reports a broken file, one can be reached. */
  lemma {:induction false} BadFileMeans(fs: Files, path: Path, seen: seq<Path>)
    requires Walk(fs, path, seen).outcome.BadFile?
    ensures ReachesBroken(fs, path)
    decreases Unvisited(fs, seen), |Includes(fs, path)| + 1
  {
    if Broken(fs, path) {
      assert Chain(fs, [path]);
    } else {
      var i := BadInclude(fs, path, |Includes(fs, path)|, seen);
      BrokenBelow(fs, path, i);
    }
  }

  lemma {:induction false} BadInclude(fs: Files, path: Path, n: nat, seen: seq<Path>) returns (i: nat)
    requires n <= |Includes(fs, path)| && WalkIncludes(fs, path, n, seen).outcome.BadFile?
    ensures i < n && ReachesBroken(fs, Includes(fs, path)[i])
    decreases Unvisited(fs, seen), n
  {
    if WalkIncludes(fs, path, n - 1, seen).outcome.Merged? {
      i := n - 1;
      VisitShrinks(fs, path, i, seen);
      BadFileMeans(fs, Includes(fs, path)[i], seen + [Includes(fs, path)[i]]);
    } else {
      i := BadInclude(fs, path, n - 1, seen);
    }
  }

  /** Some file after the first is on the chain already, or comes twice. */
  ghost predicate MeetsAgain(chain: seq<Path>, seen: seq<Path>) {
    (exists i :: 1 <= i < |chain| && chain[i] in seen) || (exists i, j :: 1 <= i < j < |chain| && chain[i] == chain[j])
  }

  lemma MeetsAgainTail(chain: seq<Path>, seen: seq<Path>)
    requires |chain| > 1 && chain[1] !in seen && MeetsAgain(chain, seen)
    ensures |chain| > 2 && MeetsAgain(chain[1..], seen + [chain[1]])
  {
    var tail, longer := chain[1..], seen + [chain[1]];
    if i :| 1 <= i < |chain| && chain[i] in seen {
      assert tail[i - 1] in longer;
    } else {
      var i, j :| 1 <= i < j < |chain| && chain[i] == chain[j];
      assert tail[i - 1] == tail[j - 1];
      assert i == 1 ==> tail[j - 1] in longer;
    }
  }

  lemma RouteTail(fs: Files, chain: seq<Path>, at: seq<nat>)
    requires ClearRoute(fs, chain, at) && |chain| > 1
    ensures ClearRoute(fs, chain[1..], at[1..])
  {
    forall k | 0 <= k < |at[1..]| ensures at[1..][k] == at[k + 1] && chain[1..][k] == chain[k + 1] {
    }
  }

  lemma CycleEarlier(fs: Files, path: Path, i: nat, seen: seq<Path>)
    requires i <= |Includes(fs, path)| && !WalkIncludes(fs, path, i, seen).outcome.Merged?
    requires forall q :: 0 <= q < i ==> !ReachesBroken(fs, Includes(fs, path)[q])
    ensures Walk(fs, path, seen).outcome.IncludeCycle?
  {
    FailsAbove(fs, path, i, seen);
    if WalkIncludes(fs, path, i, seen).outcome.BadFile? {
      var q := BadInclude(fs, path, i, seen);
    }
  }

  lemma CycleHere(fs: Files, path: Path, i: nat, seen: seq<Path>)
    requires i < |Includes(fs, path)| && Includes(fs, path)[i] !in seen
    requires WalkIncludes(fs, path, i, seen).outcome.Merged?
    requires Walk(fs, Includes(fs, path)[i], seen + [Includes(fs, path)[i]]).outcome.IncludeCycle?
    ensures Walk(fs, path, seen).outcome.IncludeCycle?
  {
    OneMoreInclude(fs, path, i, seen);
    FailsAbove(fs, path, i + 1, seen);
  }

  /** A clear route that meets a file again makes the walk report a cycle. */
  lemma {:induction false} CycleAhead(fs: Files, chain: seq<Path>, at: seq<nat>, seen: seq<Path>)
    requires ClearRoute(fs, chain, at) && |chain| > 1 && MeetsAgain(chain, seen)
    ensures Walk(fs, chain[0], seen).outcome.IncludeCycle?
    decreases |chain|
  {
    var path, i := chain[0], at[0];
    assert chain[1] == Includes(fs, path)[i];
    if !WalkIncludes(fs, path, i, seen).outcome.Merged? {
      CycleEarlier(fs, path, i, seen);
    } else if chain[1] in seen {
      CycleStops(fs, path, i, seen);
    } else {
      MeetsAgainTail(chain, seen);
      RouteTail(fs, chain, at);
      CycleAhead(fs, chain[1..], at[1..], seen + [chain[1]]);
      CycleHere(fs, path, i, seen);
    }
  }

  lemma {:induction false} MergedReachesNoBroken(fs: Files, path: Path, n: nat, seen: seq<Path>, q: nat)
    requires q < n <= |Includes(fs, path)| && WalkIncludes(fs, path, n, seen).outcome.Merged?
    ensures !ReachesBroken(fs, Includes(fs, path)[q])
  {
    MergedBelow(fs, path, n, seen, q);
    var inc := Includes(fs, path)[q];
    forall chain | Chain(fs, chain) && chain[0] == inc ensures !Broken(fs, chain[|chain| - 1]) {
      MergedMeans(fs, inc, seen + [inc], chain);
    }
  }

  lemma RouteCons(fs: Files, path: Path, i: nat, chain: seq<Path>, at: seq<nat>)
    requires ClearRoute(fs, chain, at) && i < |Includes(fs, path)| && chain[0] == Includes(fs, path)[i]
    requires forall q :: 0 <= q < i ==> !ReachesBroken(fs, Includes(fs, path)[q])
    ensures ClearRoute(fs, [path] + chain, [i] + at)
  {
    var longer, at' := [path] + chain, [i] + at;
    forall k | 0 <= k < |at'|
      ensures at'[k] < |Includes(fs, longer[k])| && longer[k + 1] == Includes(fs, longer[k])[at'[k]]
      ensures forall q :: 0 <= q < at'[k] ==> !ReachesBroken(fs, Includes(fs, longer[k])[q])
    {
      assert k > 0 ==> at'[k] == at[k - 1] && longer[k] == chain[k - 1] && longer[k + 1] == chain[k];
    }
  }

  /** The chain ends in `file`, which it or `seen` had met after the first. */
  ghost predicate EndsAgain(chain: seq<Path>, seen: seq<Path>, file: Path) {
    && |chain| > 1 && chain[|chain| - 1] == file
    && (file in seen || file in chain[1..|chain| - 1])
  }

  lemma EndsAgainCons(path: Path, tail: seq<Path>, seen: seq<Path>, file: Path)
    requires tail != [] && (if tail[0] in seen then tail == [file] else EndsAgain(tail, seen + [tail[0]], file))
    ensures EndsAgain([path] + tail, seen, file)
  {
    var chain := [path] + tail;
    var middle := chain[1..|chain| - 1];
    assert middle == tail[..|tail| - 1];
    if tail[0] !in seen && file !in seen {
      if file == tail[0] {
        assert middle[0] == file;
      } else {
        var i :| 0 <= i < |tail[1..|tail| - 1]| && tail[1..|tail| - 1][i] == file;
        assert middle[i + 1] == file;
      }
    }
  }

  /** A reported cycle has a clear route to a file that is met again. */
  lemma {:induction false} CycleHasRoute(fs: Files, path: Path, seen: seq<Path>)
    returns (chain: seq<Path>, at: seq<nat>)
    requires Walk(fs, path, seen).outcome.IncludeCycle?
    ensures ClearRoute(fs, chain, at) && |chain| > 1 && chain[0] == path && MeetsAgain(chain, seen)
    ensures EndsAgain(chain, seen, Walk(fs, path, seen).outcome.path)
    decreases Unvisited(fs, seen), |Includes(fs, path)| + 1
  {
    chain, at := CycleBelow(fs, path, |Includes(fs, path)|, seen);
  }

  lemma {:induction false} CycleBelow(fs: Files, path: Path, n: nat, seen: seq<Path>)
    returns (chain: seq<Path>, at: seq<nat>)
    requires n <= |Includes(fs, path)| && WalkIncludes(fs, path, n, seen).outcome.IncludeCycle?
    ensures ClearRoute(fs, chain, at) && |chain| > 1 && chain[0] == path && MeetsAgain(chain, seen)
    ensures EndsAgain(chain, seen, WalkIncludes(fs, path, n, seen).outcome.path)
    decreases Unvisited(fs, seen), n
  {
    if !WalkIncludes(fs, path, n - 1, seen).outcome.Merged? {
      chain, at := CycleBelow(fs, path, n - 1, seen);
    } else {
      var i, inc := n - 1, Includes(fs, path)[n - 1];
      forall q | 0 <= q < i ensures !ReachesBroken(fs, Includes(fs, path)[q]) {
        MergedReachesNoBroken(fs, path, i, seen, q);
      }
      var tail: seq<Path>, rest: seq<nat> := [inc], [];
      if inc !in seen {
        VisitShrinks(fs, path, i, seen);
        tail, rest := CycleHasRoute(fs, inc, seen + [inc]);
      }
      RouteCons(fs, path, i, tail, rest);
      chain, at := [path] + tail, [i] + rest;
      MeetsAgainCons(path, inc, tail, seen);
      EndsAgainCons(path, tail, seen, WalkIncludes(fs, path, n, seen).outcome.path);
    }
  }

  /** The files the errors name: a cycle error names a file the route comes back to,
      any other a broken file within reach. */
  lemma ErrorsNameFiles(fs: Files, root: Path)
    ensures Walk(fs, root, []).outcome.IncludeCycle? ==>
              exists chain, at :: ClearRoute(fs, chain, at) && chain[0] == root
                                  && EndsAgain(chain, [], Walk(fs, root, []).outcome.path)
    ensures Walk(fs, root, []).outcome.BadFile? ==>
              && Broken(fs, Walk(fs, root, []).outcome.path)
              && ReachesFile(fs, root, Walk(fs, root, []).outcome.path)
  {
    if Walk(fs, root, []).outcome.IncludeCycle? {
      var chain, at := CycleHasRoute(fs, root, []);
    }
    if Walk(fs, root, []).outcome.BadFile? {
      BadFileNamed(fs, root, []);
    }
  }

  ghost predicate ReachesFile(fs: Files, path: Path, file: Path) {
    exists chain :: Chain(fs, chain) && chain[0] == path && chain[|chain| - 1] == file
  }

  lemma ReachesBelow(fs: Files, path: Path, i: nat, file: Path)
    requires i < |Includes(fs, path)| && ReachesFile(fs, Includes(fs, path)[i], file)
    ensures ReachesFile(fs, path, file)
  {
    var chain :| Chain(fs, chain) && chain[0] == Includes(fs, path)[i] && chain[|chain| - 1] == file;
    var longer := [path] + chain;
    assert Chain(fs, longer) by {
      forall k | 0 <= k < |longer| - 1 ensures longer[k + 1] in Includes(fs, longer[k]) {
        assert k > 0 ==> longer[k + 1] == chain[k] && longer[k] == chain[k - 1];
      }
    }
  }

  lemma {:induction false} BadFileNamed(fs: Files, path: Path, seen: seq<Path>)
    requires Walk(fs, path, seen).outcome.BadFile?
    ensures Broken(fs, Walk(fs, path, seen).outcome.path) && ReachesFile(fs, path, Walk(fs, path, seen).outcome.path)
    decreases Unvisited(fs, seen), |Includes(fs, path)| + 1
  {
    if FileAt(fs, path).Yaml? && !WalkIncludes(fs, path, |Includes(fs, path)|, seen).outcome.Merged? {
      BadIncludeNamed(fs, path, |Includes(fs, path)|, seen);
    } else {
      assert Chain(fs, [path]);
    }
  }

  lemma {:induction false} BadIncludeNamed(fs: Files, path: Path, n: nat, seen: seq<Path>)
    requires n <= |Includes(fs, path)| && WalkIncludes(fs, path, n, seen).outcome.BadFile?
    ensures var file := WalkIncludes(fs, path, n, seen).outcome.path; Broken(fs, file) && ReachesFile(fs, path, file)
    decreases Unvisited(fs, seen), n
  {
    if WalkIncludes(fs, path, n - 1, seen).outcome.Merged? {
      var i, inc := n - 1, Includes(fs, path)[n - 1];
      VisitShrinks(fs, path, i, seen);
      BadFileNamed(fs, inc, seen + [inc]);
      ReachesBelow(fs, path, i, Walk(fs, inc, seen + [inc]).outcome.path);
    } else {
      BadIncludeNamed(fs, path, n - 1, seen);
    }
  }

  lemma MeetsAgainCons(path: Path, inc: Path, tail: seq<Path>, seen: seq<Path>)
    requires tail != [] && tail[0] == inc && (inc in seen || MeetsAgain(tail, seen + [inc]))
    ensures MeetsAgain([path] + tail, seen)
  {
    var chain := [path] + tail;
    assert forall i :: 0 <= i < |tail| ==> chain[i + 1] == tail[i];
    if inc in seen {
      assert chain[1] in seen;
    } else if i :| 1 <= i < |tail| && tail[i] in seen + [inc] {
      assert chain[i + 1] == tail[i];
      assert chain[i + 1] in seen || chain[i + 1] == chain[1];
    } else {
      var i, j :| 1 <= i < j < |tail| && tail[i] == tail[j];
      assert chain[i + 1] == chain[j + 1];
    }
  }

  lemma RouteFront(fs: Files, chain: seq<Path>, at: seq<nat>, n: nat)
    requires ClearRoute(fs, chain, at) && n <= |at|
    ensures ClearRoute(fs, chain[..n + 1], at[..n])
  {
  }

  lemma RouteSnoc(fs: Files, chain: seq<Path>, at: seq<nat>, i: nat)
    requires ClearRoute(fs, chain, at) && i < |Includes(fs, chain[|at|])|
    requires forall q :: 0 <= q < i ==> !ReachesBroken(fs, Includes(fs, chain[|at|])[q])
    ensures ClearRoute(fs, chain + [Includes(fs, chain[|at|])[i]], at + [i])
  {
    var chain', at' := chain + [Includes(fs, chain[|at|])[i]], at + [i];
    forall k | 0 <= k < |at'|
      ensures at'[k] < |Includes(fs, chain'[k])| && chain'[k + 1] == Includes(fs, chain'[k])[at'[k]]
      ensures forall q :: 0 <= q < at'[k] ==> !ReachesBroken(fs, Includes(fs, chain'[k])[q])
    {
      assert chain'[k] == chain[k];
      assert k < |at| ==> chain'[k + 1] == chain[k + 1] && at'[k] == at[k];
    }
  }

  /** A route that only comes back to the root goes round once more. */
  lemma RoundOnce(fs: Files, chain: seq<Path>, at: seq<nat>) returns (chain': seq<Path>, at': seq<nat>)
    requires ClearRoute(fs, chain, at) && Repeats(chain)
    ensures ClearRoute(fs, chain', at') && |chain'| > 1 && chain'[0] == chain[0] && MeetsAgain(chain', [])
  {
    var i, j :| 0 <= i < j < |chain| && chain[i] == chain[j];
    chain', at' := chain, at;
    if i == 0 {
      RouteFront(fs, chain, at, j);
      RouteSnoc(fs, chain[..j + 1], at[..j], at[0]);
      chain', at' := chain[..j + 1] + [chain[1]], at[..j] + [at[0]];
      assert chain'[1] == chain'[j + 1];
    }
  }

  /** Exactly when a cycle is reported, on every include graph: when a chain of
      includes comes back to one of its files and nothing included before it, at
      any file along it, leads to a broken file. So without broken files in reach
      every cycle is reported, and a file included along two branches is none. */
  lemma CycleReportedExactly(fs: Files, root: Path)
    ensures Walk(fs, root, []).outcome.IncludeCycle? <==> CycleInView(fs, root)
    ensures !ReachesBroken(fs, root) ==> (Walk(fs, root, []).outcome.IncludeCycle? <==> Cyclic(fs, root))
  {
    if Walk(fs, root, []).outcome.IncludeCycle? {
      var chain, at := CycleHasRoute(fs, root, []);
      assert Repeats(chain);
    }
    if CycleInView(fs, root) {
      var chain, at :| ClearRoute(fs, chain, at) && chain[0] == root && Repeats(chain);
      chain, at := RoundOnce(fs, chain, at);
      CycleAhead(fs, chain, at, []);
    }
    WalkSucceedsExactly(fs, root);
    if Walk(fs, root, []).outcome.BadFile? {
      BadFileMeans(fs, root, []);
    }
  }

  /** A broken file included before a cycle hides it, one included after does not. */
  lemma BrokenHidesCycle()
    ensures var fs: Files := map["root" := Yaml(["bad", "root"], map[], true), "bad" := Malformed];
            Cyclic(fs, "root") && Walk(fs, "root", []).outcome == BadFile("bad")
    ensures var fs: Files := map["root" := Yaml(["root", "bad"], map[], true), "bad" := Malformed];
            ReachesBroken(fs, "root") && Walk(fs, "root", []).outcome == IncludeCycle("root")
  {
    BrokenFirst();
    CycleFirst();
  }

  lemma BrokenFirst()
    ensures var fs: Files := map["root" := Yaml(["bad", "root"], map[], true), "bad" := Malformed];
            Cyclic(fs, "root") && Walk(fs, "root", []).outcome == BadFile("bad")
  {
    var fs: Files := map["root" := Yaml(["bad", "root"], map[], true), "bad" := Malformed];
    var chain := ["root", "root"];
    assert Includes(fs, "root")[1] == "root" && Includes(fs, "root")[0] == "bad";
    assert Chain(fs, chain) && chain[0] == chain[1];
    assert Walk(fs, "bad", [] + ["bad"]) == Result(BadFile("bad"), []);
    assert WalkIncludes(fs, "root", 1, []).outcome == BadFile("bad");
    FailsAbove(fs, "root", 1, []);
  }

  lemma CycleFirst()
    ensures var fs: Files := map["root" := Yaml(["root", "bad"], map[], true), "bad" := Malformed];
            ReachesBroken(fs, "root") && Walk(fs, "root", []).outcome == IncludeCycle("root")
  {
    var fs: Files := map["root" := Yaml(["root", "bad"], map[], true), "bad" := Malformed];
    var incs := Includes(fs, "root");
    assert incs[0] == "root" && incs[1] == "bad";
    assert Chain(fs, ["root", "bad"]) && Broken(fs, "bad");
    var seen := [] + ["root"];
    CycleStops(fs, "root", 0, seen);
    OneMoreInclude(fs, "root", 0, []);
    FailsAbove(fs, "root", 1, []);
  }

  // ---------------------------------------------------------------- the order

  /** `block` applies `path` after the blocks of its includes, in order, and
      nothing else: depth-first post-order. */
  ghost predicate PostOrder(fs: Files, path: Path, block: seq<Path>)
    decreases |block|
  {
    if !FileAt(fs, path).Yaml? then block == []
    else
      && block != [] && block[|block| - 1] == path
      && exists parts: seq<seq<Path>> ::
           && Concat(parts) == block[..|block| - 1] && |parts| == |Includes(fs, path)|
           && forall i :: 0 <= i < |parts| ==> |parts[i]| < |block| && PostOrder(fs, Includes(fs, path)[i], parts[i])
  }

  ghost predicate PostOrderParts(fs: Files, incs: seq<Path>, block: seq<Path>, parts: seq<seq<Path>>) {
    && |parts| == |incs| && Concat(parts) == block
    && forall i :: 0 <= i < |parts| ==> |parts[i]| <= |block| && PostOrder(fs, incs[i], parts[i])
  }

  lemma {:induction false} WalkIsPostOrder(fs: Files, path: Path, seen: seq<Path>)
    requires Walk(fs, path, seen).outcome.Merged?
    ensures PostOrder(fs, path, Walk(fs, path, seen).applied)
    decreases Unvisited(fs, seen), |Includes(fs, path)| + 1
  {
    if FileAt(fs, path).Yaml? {
      var parts := IncludesArePostOrder(fs, path, |Includes(fs, path)|, seen);
      var block := Walk(fs, path, seen).applied;
      var below := WalkIncludes(fs, path, |Includes(fs, path)|, seen).applied;
      assert block[..|block| - 1] == below;
      assert Includes(fs, path)[..|Includes(fs, path)|] == Includes(fs, path);
      assert PostOrderParts(fs, Includes(fs, path), below, parts);
    }
  }

  lemma PartsSnoc(
    fs: Files, incs: seq<Path>, block: seq<Path>, parts: seq<seq<Path>>, last: seq<Path>, front: seq<Path>)
    requires incs != [] && PostOrder(fs, incs[|incs| - 1], last) && block == front + last
    requires PostOrderParts(fs, incs[..|incs| - 1], front, parts)
    ensures PostOrderParts(fs, incs, block, parts + [last])
  {
    ConcatSnoc(parts, last);
  }

  lemma {:induction false} IncludesArePostOrder(fs: Files, path: Path, n: nat, seen: seq<Path>)
    returns (parts: seq<seq<Path>>)
    requires n <= |Includes(fs, path)| && WalkIncludes(fs, path, n, seen).outcome.Merged?
    ensures PostOrderParts(fs, Includes(fs, path)[..n], WalkIncludes(fs, path, n, seen).applied, parts)
    decreases Unvisited(fs, seen), n
  {
    if n == 0 {
      parts := [];
    } else {
      var inc := Includes(fs, path)[n - 1];
      MergedInclude(fs, path, n, seen);
      VisitShrinks(fs, path, n - 1, seen);
      var front := IncludesArePostOrder(fs, path, n - 1, seen);
      WalkIsPostOrder(fs, inc, seen + [inc]);
      var last := Walk(fs, inc, seen + [inc]).applied;
      parts := front + [last];
      assert Includes(fs, path)[..n][..n - 1] == Includes(fs, path)[..n - 1];
      PartsSnoc(fs, Includes(fs, path)[..n], WalkIncludes(fs, path, n, seen).applied, front, last,
                WalkIncludes(fs, path, n - 1, seen).applied);
    }
  }

  lemma MergedInclude(fs: Files, path: Path, n: nat, seen: seq<Path>)
    requires 0 < n <= |Includes(fs, path)| && WalkIncludes(fs, path, n, seen).outcome.Merged?
    ensures var inc := Includes(fs, path)[n - 1];
            && inc !in seen && WalkIncludes(fs, path, n - 1, seen).outcome.Merged?
            && Walk(fs, inc, seen + [inc]).outcome.Merged?
            && WalkIncludes(fs, path, n, seen).applied
               == WalkIncludes(fs, path, n - 1, seen).applied + Walk(fs, inc, seen + [inc]).applied
  {
  }

  /** What was merged before does not matter to what a block contributes. */
  lemma {:induction false} DecodedOnTop(cfg: Keys, fs: Files, applied: seq<Path>)
    ensures Decoded(cfg, fs, applied) == cfg + Decoded(map[], fs, applied)
  {
    if applied != [] {
      DecodedOnTop(cfg, fs, applied[..|applied| - 1]);
    }
  }

  /** An including file overrides everything it includes, and a file's includes
      override whatever the layers before it had set. */
  lemma IncluderWins(cfg: Keys, fs: Files, root: Path, k: string)
    requires Walk(fs, root, []).outcome.Merged? && FileAt(fs, root).Yaml?
    ensures var final := Decoded(cfg, fs, Walk(fs, root, []).applied);
            var below := Decoded(map[], fs, WalkIncludes(fs, root, |Includes(fs, root)|, []).applied);
            && (k in FileAt(fs, root).keys ==> k in final && final[k] == FileAt(fs, root).keys[k])
            && (k !in FileAt(fs, root).keys && k in below ==> k in final && final[k] == below[k])
            && (k !in FileAt(fs, root).keys && k !in below ==> (k in final <==> k in cfg) && (k in cfg ==> final[k] == cfg[k]))
  {
    var below := WalkIncludes(fs, root, |Includes(fs, root)|, []).applied;
    assert (below + [root])[..|below|] == below;
    DecodedOnTop(cfg, fs, below);
  }
}
