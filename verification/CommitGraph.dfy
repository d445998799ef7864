/** A repository's commits and their parents. */
module CommitGraph {
  type Commit = nat

  datatype Graph = Graph(parents: map<Commit, seq<Commit>>)

  predicate IsMerge(g: Graph, c: Commit) {
    c in g.parents && |g.parents[c]| >= 2
  }

  /** Every parent is itself a commit of the repository. */
  ghost predicate Complete(g: Graph) {
    forall c, p :: c in g.parents && p in g.parents[c] ==> p in g.parents
  }

  ghost predicate Walk(g: Graph, path: seq<Commit>) {
    && path != []
    && forall i :: 0 <= i < |path| - 1 ==> path[i] in g.parents && path[i + 1] in g.parents[path[i]]
  }

  ghost predicate WalkFromTo(g: Graph, path: seq<Commit>, from: Commit, to: Commit) {
    Walk(g, path) && path[0] == from && path[|path| - 1] == to
  }

  /** `to` is `from` itself or one of its ancestors. */
  ghost predicate Reaches(g: Graph, from: Commit, to: Commit) {
    exists path: seq<Commit> :: WalkFromTo(g, path, from, to)
  }

  lemma ReachesSelf(g: Graph, c: Commit)
    ensures Reaches(g, c, c)
  {
    assert WalkFromTo(g, [c], c, c);
  }

  lemma ReachesTransitive(g: Graph, a: Commit, b: Commit, c: Commit)
    requires Reaches(g, a, b) && Reaches(g, b, c)
    ensures Reaches(g, a, c)
  {
    var p: seq<Commit> :| WalkFromTo(g, p, a, b);
    var q: seq<Commit> :| WalkFromTo(g, q, b, c);
    assert WalkFromTo(g, p + q[1..], a, c);
  }

  lemma ReachesParent(g: Graph, c: Commit, p: Commit)
    requires c in g.parents && p in g.parents[c]
    ensures Reaches(g, c, p)
  {
    assert WalkFromTo(g, [c, p], c, p);
  }

  lemma {:induction false} WalkStaysInside(g: Graph, path: seq<Commit>)
    requires Complete(g) && Walk(g, path) && path[0] in g.parents
    ensures forall i :: 0 <= i < |path| ==> path[i] in g.parents
    decreases |path|
  {
    if |path| > 1 {
      var front := path[..|path| - 1];
      WalkStaysInside(g, front);
      assert path[|path| - 2] == front[|front| - 1];
    }
  }

  /** The commits a ref lists: `c` and all its ancestors. */
  ghost function History(g: Graph, c: Commit): set<Commit> {
    set x | x in g.parents && Reaches(g, c, x)
  }

  lemma HistoryHolds(g: Graph, c: Commit, x: Commit)
    requires Complete(g) && c in g.parents
    ensures x in History(g, c) <==> Reaches(g, c, x)
  {
    if Reaches(g, c, x) {
      var path: seq<Commit> :| WalkFromTo(g, path, c, x);
      WalkStaysInside(g, path);
    }
  }

  /** `a`'s history lies within `b`'s exactly when `b` reaches `a`. */
  lemma HistoryWithin(g: Graph, a: Commit, b: Commit)
    requires Complete(g) && a in g.parents && b in g.parents
    ensures History(g, a) <= History(g, b) <==> Reaches(g, b, a)
  {
    ReachesSelf(g, a);
    HistoryHolds(g, a, a);
    HistoryHolds(g, b, a);
    if Reaches(g, b, a) {
      forall x | x in History(g, a) ensures x in History(g, b) {
        ReachesTransitive(g, b, a, x);
      }
    }
  }

  // ------------------------------------------------------- straight history

  function Before(c: Commit): seq<Commit> {
    if c == 0 then [] else [c - 1]
  }

  /** The first `n` commits are in a row, each the parent of the next. */
  ghost predicate Trunk(g: Graph, n: nat) {
    forall c: Commit :: c < n ==> c in g.parents && g.parents[c] == Before(c)
  }

  lemma {:induction false} TrunkWalk(g: Graph, n: nat, path: seq<Commit>)
    requires Trunk(g, n) && Walk(g, path) && path[0] < n
    ensures path[|path| - 1] <= path[0]
  {
    if |path| > 1 {
      assert path[1] in g.parents[path[0]];
      TrunkWalk(g, n, path[1..]);
    }
  }

  lemma {:induction false} TrunkReaches(g: Graph, n: nat, a: Commit, b: Commit)
    requires Trunk(g, n) && a < n
    ensures Reaches(g, a, b) <==> b <= a
    decreases a
  {
    if Reaches(g, a, b) {
      var path: seq<Commit> :| WalkFromTo(g, path, a, b);
      TrunkWalk(g, n, path);
    }
    if b == a {
      ReachesSelf(g, a);
    } else if b < a {
      TrunkReaches(g, n, a - 1, b);
      ReachesParent(g, a, a - 1);
      ReachesTransitive(g, a, a - 1, b);
    }
  }

  /** A commit forked off the trunk. */
  lemma ForkReaches(g: Graph, n: nat, tip: Commit, base: Commit, x: Commit)
    requires Trunk(g, n) && tip in g.parents && g.parents[tip] == [base] && base < n
    ensures Reaches(g, tip, x) <==> x == tip || x <= base
  {
    if Reaches(g, tip, x) {
      var path: seq<Commit> :| WalkFromTo(g, path, tip, x);
      if |path| > 1 {
        assert path[1] in g.parents[path[0]];
        assert WalkFromTo(g, path[1..], base, x);
        TrunkReaches(g, n, base, x);
      }
    }
    if x == tip {
      ReachesSelf(g, tip);
    } else if x <= base {
      TrunkReaches(g, n, base, x);
      ReachesParent(g, tip, base);
      ReachesTransitive(g, tip, base, x);
    }
  }
}
