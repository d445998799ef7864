/** The LIKE matcher behind event subscriptions (internal/daemon/dispatch.go).

    `Like` is the declarative relation: the subject splits into one piece per
    pattern symbol, `%` taking any piece, `_` any one byte, and every other
    byte itself. `LikeMatch` is the iterative matcher that remembers a single
    `%` and backtracks to it; it decides exactly that relation. */
module LikeMatch {
  import opened Prelude

  const PERCENT: Byte := 37
  const UNDERSCORE: Byte := 95

  // ---------------------------------------------------------------- relation

  ghost predicate PieceFits(piece: Bytes, symbol: Byte) {
    symbol == PERCENT || (|piece| == 1 && (symbol == UNDERSCORE || piece[0] == symbol))
  }

  ghost predicate Splits(s: Bytes, p: Bytes, pieces: seq<Bytes>) {
    && |pieces| == |p|
    && Concat(pieces) == s
    && forall i :: 0 <= i < |p| ==> PieceFits(pieces[i], p[i])
  }

  /** SQL LIKE over bytes. */
  ghost predicate Like(s: Bytes, p: Bytes) {
    exists pieces :: Splits(s, p, pieces)
  }

  /** `needle` occurs in `s`. */
  ghost predicate Contains(s: Bytes, needle: Bytes) {
    exists k :: 0 <= k <= |s| && needle <= s[k..]
  }

  // ------------------------------------------- the relation, symbol by symbol

  predicate Fits(c: Byte, symbol: Byte) {
    symbol != PERCENT && (symbol == UNDERSCORE || symbol == c)
  }

  lemma LikeEmptyPattern(s: Bytes)
    ensures Like(s, []) <==> s == []
  {
    if s == [] {
      assert Splits(s, [], []);
    }
  }

  lemma LikeSymbol(s: Bytes, p: Bytes)
    requires p != [] && p[0] != PERCENT
    ensures Like(s, p) <==> s != [] && Fits(s[0], p[0]) && Like(s[1..], p[1..])
  {
    if Like(s, p) {
      var pieces :| Splits(s, p, pieces);
      assert PieceFits(pieces[0], p[0]);
      assert s[1..] == Concat(pieces[1..]);
      assert Splits(s[1..], p[1..], pieces[1..]);
    }
    if s != [] && Fits(s[0], p[0]) && Like(s[1..], p[1..]) {
      var rest :| Splits(s[1..], p[1..], rest);
      var pieces := [[s[0]]] + rest;
      assert pieces[1..] == rest;
      assert Splits(s, p, pieces);
    }
  }

  /** A leading `%` drops any prefix of the subject. */
  lemma LikePercent(s: Bytes, p: Bytes)
    requires p != [] && p[0] == PERCENT
    ensures Like(s, p) <==> exists k :: 0 <= k <= |s| && Like(s[k..], p[1..])
  {
    if Like(s, p) {
      var pieces :| Splits(s, p, pieces);
      var k := |pieces[0]|;
      assert s[k..] == Concat(pieces[1..]);
      assert Splits(s[k..], p[1..], pieces[1..]);
      assert Like(s[k..], p[1..]);
    }
    if k :| 0 <= k <= |s| && Like(s[k..], p[1..]) {
      var rest :| Splits(s[k..], p[1..], rest);
      var pieces := [s[..k]] + rest;
      assert pieces[1..] == rest;
      assert s == s[..k] + s[k..];
      assert Splits(s, p, pieces);
    }
  }

  lemma PercentAbsorbs(s: Bytes, p: Bytes, k: nat)
    requires p != [] && p[0] == PERCENT && k <= |s| && Like(s[k..], p)
    ensures Like(s, p)
  {
    LikePercent(s[k..], p);
    var j :| 0 <= j <= |s[k..]| && Like(s[k..][j..], p[1..]);
    assert s[k..][j..] == s[k + j..];
    LikePercent(s, p);
  }

  // ------------------------------------------------------ facts for the loop

  /** `q` has no `%` and matches the front of `s` byte for byte. */
  ghost predicate FitsFront(s: Bytes, q: Bytes) {
    |q| <= |s| && forall i :: 0 <= i < |q| ==> Fits(s[i], q[i])
  }

  lemma {:induction false} LikeAfterFront(s: Bytes, q: Bytes, rest: Bytes)
    requires FitsFront(s, q)
    ensures Like(s, q + rest) <==> Like(s[|q|..], rest)
  {
    if q == [] {
      assert q + rest == rest && s[0..] == s;
    } else {
      LikeSymbol(s, q + rest);
      assert (q + rest)[1..] == q[1..] + rest;
      LikeAfterFront(s[1..], q[1..], rest);
      assert s[1..][|q[1..]|..] == s[|q|..];
    }
  }

  /** A `%`-free front forces some match of it at the start. */
  lemma {:induction false} FrontFits(s: Bytes, q: Bytes, rest: Bytes)
    requires PERCENT !in q && Like(s, q + rest)
    ensures FitsFront(s, q)
  {
    if q != [] {
      assert (q + rest)[0] == q[0];
      assert q[0] in q;
      LikeSymbol(s, q + rest);
      assert (q + rest)[1..] == q[1..] + rest;
      FrontFits(s[1..], q[1..], rest);
    }
  }

  function Width(p: Bytes): nat {
    if p == [] then 0 else (if p[0] == PERCENT then 0 else 1) + Width(p[1..])
  }

  lemma {:induction false} LikeNeedsWidth(s: Bytes, p: Bytes)
    requires Like(s, p)
    ensures Width(p) <= |s|
    decreases |p|
  {
    if p == [] {
    } else if p[0] == PERCENT {
      LikePercent(s, p);
      var k :| 0 <= k <= |s| && Like(s[k..], p[1..]);
      LikeNeedsWidth(s[k..], p[1..]);
    } else {
      LikeSymbol(s, p);
      LikeNeedsWidth(s[1..], p[1..]);
    }
  }

  lemma {:induction false} WidthOfFront(q: Bytes, rest: Bytes)
    requires PERCENT !in q
    ensures Width(q + rest) == |q| + Width(rest)
  {
    if q == [] {
      assert q + rest == rest;
    } else {
      assert q[0] in q;
      assert (q + rest)[1..] == q[1..] + rest;
      WidthOfFront(q[1..], rest);
    }
  }

  lemma {:induction false} LikeEmptySubject(p: Bytes)
    ensures Like([], p) <==> Width(p) == 0
  {
    if p == [] {
      LikeEmptyPattern([]);
    } else {
      LikeEmptySubject(p[1..]);
      if p[0] == PERCENT {
        LikePercent([], p);
        var none: Bytes := [];
        assert none[0..] == none;
      } else {
        LikeSymbol([], p);
      }
    }
  }

  /** Meeting the next `%` forgets the remembered one: whatever the earlier
      `%` could still absorb, the new one can absorb instead. */
  lemma NextPercent(s: Bytes, q: Bytes, rest: Bytes)
    requires FitsFront(s, q) && PERCENT !in q
    requires rest != [] && rest[0] == PERCENT
    ensures Like(s, [PERCENT] + q + rest) <==> Like(s[|q|..], rest)
  {
    var p := [PERCENT] + q + rest;
    assert p[1..] == q + rest;
    LikePercent(s, p);
    if Like(s, p) {
      var k :| 0 <= k <= |s| && Like(s[k..], p[1..]);
      FrontFits(s[k..], q, rest);
      LikeAfterFront(s[k..], q, rest);
      assert s[k..][|q|..] == s[|q|..][k..];
      PercentAbsorbs(s[|q|..], rest, k);
    }
    if Like(s[|q|..], rest) {
      LikeAfterFront(s, q, rest);
      assert s[0..] == s;
    }
  }

  /** A mismatch after the remembered `%` moves its start one byte right. */
  lemma Backtrack(s: Bytes, q: Bytes, rest: Bytes)
    requires FitsFront(s, q) && PERCENT !in q && |q| < |s|
    requires !Like(s[|q|..], rest)
    ensures Like(s, [PERCENT] + q + rest) <==> Like(s[1..], [PERCENT] + q + rest)
  {
    var p := [PERCENT] + q + rest;
    assert p[1..] == q + rest;
    LikeAfterFront(s, q, rest);
    if Like(s, p) {
      LikePercent(s, p);
      var k :| 0 <= k <= |s| && Like(s[k..], p[1..]);
      assert s[0..] == s;
      assert k != 0;
      assert s[k..] == s[1..][k - 1..];
      LikePercent(s[1..], p);
    }
    if Like(s[1..], p) {
      PercentAbsorbs(s, p, 1);
    }
  }

  /** At the end of the subject only `%` may be left. */
  lemma EndOfSubject(s: Bytes, q: Bytes, rest: Bytes)
    requires FitsFront(s, q) && PERCENT !in q && |q| == |s|
    ensures Like(s, [PERCENT] + q + rest) <==> Width(rest) == 0
  {
    var p := [PERCENT] + q + rest;
    assert p[1..] == q + rest;
    WidthOfFront(q, rest);
    if Like(s, p) {
      LikeNeedsWidth(s, p);
    }
    if Width(rest) == 0 {
      LikeEmptySubject(rest);
      assert s[|q|..] == [];
      LikeAfterFront(s, q, rest);
      assert s[0..] == s;
      LikePercent(s, p);
    }
  }

  lemma {:induction false} WidthZero(p: Bytes, n: nat)
    requires n <= |p| && forall i :: 0 <= i < n ==> p[i] == PERCENT
    ensures Width(p) == Width(p[n..])
  {
    if n == 0 {
      assert p[0..] == p;
    } else {
      WidthZero(p[1..], n - 1);
      assert p[1..][n - 1..] == p[n..];
    }
  }

  // ----------------------------------------------------------- the algorithm

  /** What the four indices mean: before the first `%` the question is the
      one about the two tails; after it, the question about the subject from
      `matchSi` and the pattern from the remembered `%`, with everything
      between them matched byte for byte. */
  ghost predicate Tracks(s: Bytes, p: Bytes, si: int, pi: int, starPi: int, matchSi: int) {
    && 0 <= matchSi <= si <= |s|
    && -1 <= starPi < pi <= |p|
    && if starPi == -1 then
         Like(s, p) <==> Like(s[si..], p[pi..])
       else
         && p[starPi] == PERCENT
         && pi - (starPi + 1) == si - matchSi
         && PERCENT !in p[starPi + 1..pi]
         && FitsFront(s[matchSi..], p[starPi + 1..pi])
         && (Like(s, p) <==> Like(s[matchSi..], p[starPi..]))
  }

  lemma StepPercent(s: Bytes, p: Bytes, si: int, pi: int, starPi: int, matchSi: int)
    requires Tracks(s, p, si, pi, starPi, matchSi) && pi < |p| && p[pi] == PERCENT
    ensures Tracks(s, p, si, pi + 1, pi, si)
  {
    if starPi != -1 {
      var q := p[starPi + 1..pi];
      assert p[starPi..] == [PERCENT] + q + p[pi..];
      assert s[matchSi..][|q|..] == s[si..];
      NextPercent(s[matchSi..], q, p[pi..]);
    }
  }

  lemma StepSymbol(s: Bytes, p: Bytes, si: int, pi: int, starPi: int, matchSi: int)
    requires Tracks(s, p, si, pi, starPi, matchSi) && si < |s| && pi < |p| && Fits(s[si], p[pi])
    ensures Tracks(s, p, si + 1, pi + 1, starPi, matchSi)
  {
    if starPi == -1 {
      LikeSymbol(s[si..], p[pi..]);
      assert s[si..][1..] == s[si + 1..] && p[pi..][1..] == p[pi + 1..];
    } else {
      assert p[starPi + 1..pi + 1] == p[starPi + 1..pi] + [p[pi]];
    }
  }

  lemma Mismatch(s: Bytes, p: Bytes)
    requires s != []
    requires p == [] || (p[0] != PERCENT && !Fits(s[0], p[0]))
    ensures !Like(s, p)
  {
    if p == [] {
      LikeEmptyPattern(s);
    } else {
      LikeSymbol(s, p);
    }
  }

  lemma StepBack(s: Bytes, p: Bytes, si: int, pi: int, starPi: int, matchSi: int)
    requires Tracks(s, p, si, pi, starPi, matchSi) && si < |s|
    requires pi == |p| || (p[pi] != PERCENT && !Fits(s[si], p[pi]))
    ensures starPi == -1 ==> !Like(s, p)
    ensures starPi != -1 ==> Tracks(s, p, matchSi + 1, starPi + 1, starPi, matchSi + 1)
  {
    Mismatch(s[si..], p[pi..]);
    if starPi != -1 {
      var q := p[starPi + 1..pi];
      assert p[starPi..] == [PERCENT] + q + p[pi..];
      assert s[matchSi..][|q|..] == s[si..];
      Backtrack(s[matchSi..], q, p[pi..]);
      assert s[matchSi..][1..] == s[matchSi + 1..];
      assert p[starPi + 1..starPi + 1] == [];
    }
  }

  lemma AtEnd(s: Bytes, p: Bytes, pi: int, starPi: int, matchSi: int)
    requires Tracks(s, p, |s|, pi, starPi, matchSi)
    ensures Like(s, p) <==> Width(p[pi..]) == 0
  {
    if starPi == -1 {
      assert s[|s|..] == [];
      LikeEmptySubject(p[pi..]);
    } else {
      var q := p[starPi + 1..pi];
      assert p[starPi..] == [PERCENT] + q + p[pi..];
      EndOfSubject(s[matchSi..], q, p[pi..]);
    }
  }

  lemma OnlyPercentsLeft(p: Bytes, from: nat, to: nat)
    requires from <= to <= |p| && (forall i :: from <= i < to ==> p[i] == PERCENT)
    requires to < |p| ==> p[to] != PERCENT
    ensures Width(p[from..]) == 0 <==> to == |p|
  {
    WidthZero(p[from..], to - from);
    assert p[from..][to - from..] == p[to..];
  }

  /** likeMatch: greedy on `%`, falling back to the last one seen. */
  method LikeMatch(s: Bytes, p: Bytes) returns (r: bool)
    ensures r <==> Like(s, p)
  {
    var si, pi := 0, 0;
    var starPi, matchSi := -1, 0;
    assert s[0..] == s && p[0..] == p;
    while si < |s|
      invariant Tracks(s, p, si, pi, starPi, matchSi)
      decreases |p| - starPi, |s| - matchSi, |s| - si
    {
      if pi < |p| && p[pi] == PERCENT {
        StepPercent(s, p, si, pi, starPi, matchSi);
        starPi := pi;
        matchSi := si;
        pi := pi + 1;
      } else if pi < |p| && (p[pi] == UNDERSCORE || p[pi] == s[si]) {
        StepSymbol(s, p, si, pi, starPi, matchSi);
        si := si + 1;
        pi := pi + 1;
      } else {
        StepBack(s, p, si, pi, starPi, matchSi);
        if starPi == -1 {
          return false;
        }
        pi := starPi + 1;
        matchSi := matchSi + 1;
        si := matchSi;
      }
    }
    AtEnd(s, p, pi, starPi, matchSi);
    r := OnlyPercents(p, pi);
  }

  /** The loop over the pattern's end: only `%` may be left. */
  method OnlyPercents(p: Bytes, start: nat) returns (r: bool)
    requires start <= |p|
    ensures r <==> Width(p[start..]) == 0
  {
    var pi := start;
    while pi < |p| && p[pi] == PERCENT
      invariant start <= pi <= |p|
      invariant forall i :: start <= i < pi ==> p[i] == PERCENT
    {
      pi := pi + 1;
    }
    OnlyPercentsLeft(p, start, pi);
    r := pi == |p|;
  }

  // --------------------------------------------------------- payload filters

  /** buildSubscribeFilter's pattern: a bare needle is wrapped in `%…%`, one
      that already holds a wildcard is used as it is. */
  function PayloadPattern(needle: Bytes): (p: Bytes) {
    if needle != [] && PERCENT !in needle && UNDERSCORE !in needle
    then [PERCENT] + needle + [PERCENT] else needle
  }

  /** A bare needle selects exactly the payloads that contain it. */
  lemma BareNeedleIsSubstring(payload: Bytes, needle: Bytes)
    requires needle != [] && PERCENT !in needle && UNDERSCORE !in needle
    ensures Like(payload, PayloadPattern(needle)) <==> Contains(payload, needle)
  {
    var p := PayloadPattern(needle);
    var tail := [PERCENT];
    assert p[1..] == needle + tail;
    LikePercent(payload, p);
    if Like(payload, p) {
      var k :| 0 <= k <= |payload| && Like(payload[k..], p[1..]);
      FrontFits(payload[k..], needle, tail);
      assert needle <= payload[k..];
    }
    if Contains(payload, needle) {
      var k :| 0 <= k <= |payload| && needle <= payload[k..];
      var s := payload[k..];
      LikeAfterFront(s, needle, tail);
      LikeEmptySubject([]);
      assert s[|needle|..][|s| - |needle|..] == [];
      assert tail[1..] == [];
      LikePercent(s[|needle|..], tail);
      assert Like(payload[k..], p[1..]);
    }
  }
}
