/** The payload filter of a live subscription (internal/daemon/dispatch.go) beside
    the one of the stored event log (internal/store/events.go).

    Both ask LIKE about the payload. The live one wraps a needle in `%…%` unless it
    already holds a wildcard, and matches bytes; the stored one always wraps, and
    SQLite's LIKE ignores the case of ASCII letters. */
module PayloadFilters {
  import opened Prelude
  import opened LikeMatch

  /** The stored query's pattern. */
  function StoredPattern(needle: Bytes): Bytes {
    [PERCENT] + needle + [PERCENT]
  }

  /** Wrapping the needle or not, apart from letter case, makes no difference. */
  ghost predicate SameWrapped(needle: Bytes) {
    forall payload: Bytes :: Like(payload, PayloadPattern(needle)) <==> Like(payload, StoredPattern(needle))
  }

  predicate AllUnderscores(p: Bytes) {
    forall i :: 0 <= i < |p| ==> p[i] == UNDERSCORE
  }

  predicate NoWildcard(needle: Bytes) {
    PERCENT !in needle && UNDERSCORE !in needle
  }

  /** `needle[first]` and `needle[last]` are `%`, with nothing but `_` outside. */
  predicate OpenAt(needle: Bytes, first: int, last: int) {
    && 0 <= first <= last < |needle| && needle[first] == PERCENT && needle[last] == PERCENT
    && AllUnderscores(needle[..first]) && AllUnderscores(needle[last + 1..])
  }

  ghost predicate OpenEnded(needle: Bytes) {
    exists first, last :: OpenAt(needle, first, last)
  }

  // --------------------------------------------------------- patterns in parts

  lemma PieceSplit(s: Bytes, p: Bytes, q: Bytes, pieces: seq<Bytes>) returns (k: nat)
    requires Splits(s, p + q, pieces)
    ensures k <= |s| && Splits(s[..k], p, pieces[..|p|]) && Splits(s[k..], q, pieces[|p|..])
  {
    var a, b := pieces[..|p|], pieces[|p|..];
    assert pieces == a + b;
    ConcatOn(a, b);
    k := |Concat(a)|;
    forall i | 0 <= i < |q| ensures PieceFits(b[i], q[i]) {
      assert PieceFits(pieces[|p| + i], (p + q)[|p| + i]);
    }
    forall i | 0 <= i < |p| ensures PieceFits(a[i], p[i]) {
      assert PieceFits(pieces[i], (p + q)[i]);
    }
  }

  lemma PieceJoin(s: Bytes, t: Bytes, p: Bytes, q: Bytes, a: seq<Bytes>, b: seq<Bytes>)
    requires Splits(s, p, a) && Splits(t, q, b)
    ensures Splits(s + t, p + q, a + b)
  {
    ConcatOn(a, b);
    forall i | 0 <= i < |p + q| ensures PieceFits((a + b)[i], (p + q)[i]) {
      if i < |p| {
        assert PieceFits(a[i], p[i]);
      } else {
        assert PieceFits(b[i - |p|], q[i - |p|]);
      }
    }
  }

  /** Two patterns in a row match two parts of the subject in a row. */
  lemma LikeParts(s: Bytes, p: Bytes, q: Bytes)
    ensures Like(s, p + q) <==> exists k :: 0 <= k <= |s| && Like(s[..k], p) && Like(s[k..], q)
  {
    if Like(s, p + q) {
      var pieces :| Splits(s, p + q, pieces);
      var k := PieceSplit(s, p, q, pieces);
      assert Like(s[..k], p) && Like(s[k..], q);
    }
    if k :| 0 <= k <= |s| && Like(s[..k], p) && Like(s[k..], q) {
      var a :| Splits(s[..k], p, a);
      var b :| Splits(s[k..], q, b);
      PieceJoin(s[..k], s[k..], p, q, a, b);
      assert s[..k] + s[k..] == s;
    }
  }

  /** A `%` matches everything. */
  lemma PercentMatches(s: Bytes)
    ensures Like(s, [PERCENT])
  {
    assert Concat([s]) == s;
    assert Splits(s, [PERCENT], [s]);
  }

  lemma UnderscoresFit(s: Bytes, p: Bytes)
    requires AllUnderscores(p) && |p| <= |s|
    ensures FitsFront(s, p) && PERCENT !in p
  {
  }

  // ------------------------------------------------ where wrapping changes nothing

  /** A `%` in front of `_`s and a `%` adds nothing. */
  lemma LeftOpen(s: Bytes, q: Bytes, rest: Bytes)
    requires AllUnderscores(q) && rest != [] && rest[0] == PERCENT
    ensures Like(s, [PERCENT] + q + rest) <==> Like(s, q + rest)
  {
    if |q| <= |s| {
      UnderscoresFit(s, q);
      NextPercent(s, q, rest);
      LikeAfterFront(s, q, rest);
    } else {
      assert PERCENT !in q;
      WidthOfFront(q, rest);
      assert ([PERCENT] + q + rest)[1..] == q + rest;
      if Like(s, q + rest) {
        LikeNeedsWidth(s, q + rest);
      }
      if Like(s, [PERCENT] + q + rest) {
        LikeNeedsWidth(s, [PERCENT] + q + rest);
      }
    }
  }

  /** A `%` followed by `_`s asks for nothing but room for them. */
  lemma RoomFor(s: Bytes, q: Bytes)
    requires AllUnderscores(q)
    ensures Like(s, [PERCENT] + q) <==> |q| <= |s|
    ensures Like(s, [PERCENT] + q + [PERCENT]) <==> |q| <= |s|
  {
    assert PERCENT !in q;
    assert ([PERCENT] + q)[1..] == q && ([PERCENT] + q + [PERCENT])[1..] == q + [PERCENT] && q + [] == q;
    WidthOfFront(q, []);
    WidthOfFront(q, [PERCENT]);
    if Like(s, [PERCENT] + q) {
      LikeNeedsWidth(s, [PERCENT] + q);
    }
    if Like(s, [PERCENT] + q + [PERCENT]) {
      LikeNeedsWidth(s, [PERCENT] + q + [PERCENT]);
    }
    if |q| <= |s| {
      RoomSuffices(s, q);
    }
  }

  lemma RoomSuffices(s: Bytes, q: Bytes)
    requires AllUnderscores(q) && |q| <= |s|
    ensures Like(s, [PERCENT] + q) && Like(s, [PERCENT] + q + [PERCENT])
  {
    var k := |s| - |q|;
    var tail := s[k..];
    UnderscoresFit(tail, q);
    LikeAfterFront(tail, q, []);
    LikeEmptyPattern(tail[|q|..]);
    assert q + [] == q && tail[|q|..] == [];
    PercentMatches(s[..k]);
    LikeParts(s, [PERCENT], q);
    assert Like(s[..|s|], [PERCENT] + q) by {
      assert s[..|s|] == s;
    }
    PercentMatches(s[|s|..]);
    LikeParts(s, [PERCENT] + q, [PERCENT]);
  }

  /** A `%` after a `%` and `_`s adds nothing. */
  lemma RightOpen(s: Bytes, front: Bytes, q: Bytes)
    requires AllUnderscores(q)
    ensures Like(s, front + ([PERCENT] + q) + [PERCENT]) <==> Like(s, front + ([PERCENT] + q))
  {
    var p, longer := [PERCENT] + q, [PERCENT] + q + [PERCENT];
    assert front + p + [PERCENT] == front + longer;
    LikeParts(s, front, p);
    LikeParts(s, front, longer);
    forall k | 0 <= k <= |s| ensures Like(s[k..], p) <==> Like(s[k..], longer) {
      RoomFor(s[k..], q);
    }
  }

  lemma OpenIsSame(needle: Bytes, first: int, last: int, payload: Bytes)
    requires OpenAt(needle, first, last)
    ensures Like(payload, StoredPattern(needle)) <==> Like(payload, needle)
  {
    var rest := needle[first..] + [PERCENT];
    assert StoredPattern(needle) == [PERCENT] + needle[..first] + rest;
    LeftOpen(payload, needle[..first], rest);
    assert needle[..first] + rest == needle + [PERCENT];
    var q := needle[last + 1..];
    assert needle == needle[..last] + ([PERCENT] + q);
    RightOpen(payload, needle[..last], q);
  }

  // ------------------------------------------------ where wrapping changes something

  const PAD: Byte := 120
  const OTHER: Byte := 121

  /** A shortest subject of the pattern. */
  function Instance(p: Bytes): Bytes {
    if p == [] then []
    else (if p[0] == PERCENT then [] else if p[0] == UNDERSCORE then [PAD] else [p[0]]) + Instance(p[1..])
  }

  lemma {:induction false} InstanceMatches(p: Bytes)
    ensures Like(Instance(p), p)
  {
    if p == [] {
      LikeEmptyPattern([]);
    } else {
      var s := Instance(p);
      InstanceMatches(p[1..]);
      if p[0] == PERCENT {
        assert s[0..] == s == Instance(p[1..]);
        LikePercent(s, p);
      } else {
        assert s[1..] == Instance(p[1..]);
        LikeSymbol(s, p);
      }
    }
  }

  lemma {:induction false} InstanceAscii(p: Bytes)
    ensures IsAscii(p) ==> IsAscii(Instance(p))
  {
    if p != [] {
      InstanceAscii(p[1..]);
      assert IsAscii(p) ==> IsAscii(p[1..]);
    }
  }

  /** The stored query finds a match inside anything. */
  lemma FoundInside(before: Bytes, needle: Bytes, after: Bytes)
    ensures Like(before + Instance(needle) + after, StoredPattern(needle))
  {
    var s, k := before + Instance(needle) + after, |before|;
    InstanceMatches(needle);
    PercentMatches(after);
    PercentMatches(before);
    var tail := Instance(needle) + after;
    assert tail[..|Instance(needle)|] == Instance(needle) && tail[|Instance(needle)|..] == after;
    LikeParts(tail, needle, [PERCENT]);
    assert s[..k] == before && s[k..] == tail;
    LikeParts(s, [PERCENT], needle + [PERCENT]);
    assert [PERCENT] + (needle + [PERCENT]) == StoredPattern(needle);
  }

  function Fill(b: Byte, n: nat): Bytes {
    seq(n, i => b)
  }

  /** Without `%` a pattern fixes the length. */
  lemma FixedLength(s: Bytes, p: Bytes)
    requires PERCENT !in p && Like(s, p)
    ensures |s| == |p| && FitsFront(s, p)
  {
    assert p + [] == p;
    FrontFits(s, p, []);
    LikeAfterFront(s, p, []);
    LikeEmptyPattern(s[|p|..]);
  }

  /** A literal before the first `%` anchors the needle on the left. */
  lemma LeftAnchored(needle: Bytes, first: nat, i: nat) returns (payload: Bytes)
    requires first < |needle| && needle[first] == PERCENT && PERCENT !in needle[..first]
    requires i < first && needle[i] != UNDERSCORE
    ensures Like(payload, StoredPattern(needle)) && !Like(payload, needle)
    ensures IsAscii(needle) ==> IsAscii(payload)
  {
    InstanceAscii(needle);
    var pad := if needle[i] == PAD then OTHER else PAD;
    payload := Fill(pad, first) + Instance(needle) + [];
    FoundInside(Fill(pad, first), needle, []);
    var q := needle[..first];
    assert needle == q + needle[first..];
    assert !Fits(payload[i], q[i]);
    if Like(payload, needle) {
      FrontFits(payload, q, needle[first..]);
    }
  }

  /** What ends in `q` ends in bytes that fit it. */
  lemma EndFits(payload: Bytes, front: Bytes, q: Bytes)
    requires PERCENT !in q && Like(payload, front + q)
    ensures |q| <= |payload| && FitsFront(payload[|payload| - |q|..], q)
  {
    LikeParts(payload, front, q);
    var k :| 0 <= k <= |payload| && Like(payload[..k], front) && Like(payload[k..], q);
    FixedLength(payload[k..], q);
  }

  /** One after the last `%` anchors it on the right. */
  lemma RightAnchored(needle: Bytes, last: nat, i: nat) returns (payload: Bytes)
    requires last < |needle| && needle[last] == PERCENT && PERCENT !in needle[last + 1..]
    requires last < i < |needle| && needle[i] != UNDERSCORE
    ensures Like(payload, StoredPattern(needle)) && !Like(payload, needle)
    ensures IsAscii(needle) ==> IsAscii(payload)
  {
    InstanceAscii(needle);
    var pad := if needle[i] == PAD then OTHER else PAD;
    var q := needle[last + 1..];
    var fill := Fill(pad, |q|);
    payload := [] + Instance(needle) + fill;
    FoundInside([], needle, fill);
    assert needle == needle[..last + 1] + q;
    assert payload[|payload| - |q|..] == fill;
    assert !Fits(fill[i - last - 1], q[i - last - 1]);
    if Like(payload, needle) {
      EndFits(payload, needle[..last + 1], q);
    }
  }

  /** A needle with `_` but no `%` fixes the payload's length. */
  lemma LengthFixed(needle: Bytes) returns (payload: Bytes)
    requires PERCENT !in needle
    ensures Like(payload, StoredPattern(needle)) && !Like(payload, needle)
    ensures IsAscii(needle) ==> IsAscii(payload)
  {
    InstanceAscii(needle);
    InstanceMatches(needle);
    FixedLength(Instance(needle), needle);
    payload := [] + Instance(needle) + [PAD];
    FoundInside([], needle, [PAD]);
    if Like(payload, needle) {
      FixedLength(payload, needle);
    }
  }

  lemma {:induction false} FirstPercent(p: Bytes) returns (i: nat)
    requires PERCENT in p
    ensures i < |p| && p[i] == PERCENT && PERCENT !in p[..i]
  {
    if p[0] == PERCENT {
      i := 0;
    } else {
      i := FirstPercent(p[1..]);
      i := i + 1;
      assert p[..i] == [p[0]] + p[1..][..i - 1];
    }
  }

  lemma {:induction false} LastPercent(p: Bytes) returns (i: nat)
    requires PERCENT in p
    ensures i < |p| && p[i] == PERCENT && PERCENT !in p[i + 1..]
  {
    var n := |p| - 1;
    if p[n] == PERCENT {
      i := n;
    } else {
      i := LastPercent(p[..n]);
      assert p[i + 1..] == p[..n][i + 1..] + [p[n]];
    }
  }

  /** A needle with a wildcard whose ends are not open is read differently. */
  lemma ClosedDiffers(needle: Bytes) returns (payload: Bytes)
    requires !NoWildcard(needle) && !OpenEnded(needle)
    ensures Like(payload, StoredPattern(needle)) && !Like(payload, needle)
    ensures IsAscii(needle) ==> IsAscii(payload)
  {
    if PERCENT !in needle {
      payload := LengthFixed(needle);
    } else {
      var first := FirstPercent(needle);
      var last := LastPercent(needle);
      assert first <= last by {
        forall j | last < j < |needle| ensures needle[j] != PERCENT {
          assert needle[j] == needle[last + 1..][j - last - 1];
        }
      }
      assert !OpenAt(needle, first, last);
      if !AllUnderscores(needle[..first]) {
        var i :| 0 <= i < first && needle[..first][i] != UNDERSCORE;
        payload := LeftAnchored(needle, first, i);
      } else {
        var i :| 0 <= i < |needle[last + 1..]| && needle[last + 1..][i] != UNDERSCORE;
        payload := RightAnchored(needle, last, last + 1 + i);
      }
    }
  }

  /** Exactly when wrapping makes no difference: the needle has no wildcard, or it
      has a `%` with nothing but `_` before its first and after its last one. */
  lemma WrappingExactly(needle: Bytes)
    requires needle != []
    ensures SameWrapped(needle) <==> NoWildcard(needle) || OpenEnded(needle)
  {
    if NoWildcard(needle) {
    } else if first, last :| OpenAt(needle, first, last) {
      assert PERCENT in needle;
      forall payload: Bytes
        ensures Like(payload, PayloadPattern(needle)) <==> Like(payload, StoredPattern(needle))
      {
        OpenIsSame(needle, first, last, payload);
      }
    } else {
      var payload := ClosedDiffers(needle);
    }
  }

  // ------------------------------------------------------------------ letter case

  predicate IsUpper(b: Byte) {
    65 <= b <= 90
  }

  predicate IsLetter(b: Byte) {
    IsUpper(b) || 97 <= b <= 122
  }

  predicate IsAscii(s: Bytes) {
    forall i :: 0 <= i < |s| ==> s[i] < 128
  }

  function LowerByte(b: Byte): Byte {
    if IsUpper(b) then b + 32 else b
  }

  function Lower(s: Bytes): (r: Bytes)
    ensures |r| == |s|
  {
    seq(|s|, i requires 0 <= i < |s| => LowerByte(s[i]))
  }

  /** LIKE as SQLite reads it. */
  ghost predicate LikeIgnoringCase(s: Bytes, p: Bytes) {
    Like(Lower(s), Lower(p))
  }

  ghost predicate CaseMatters(p: Bytes) {
    exists s :: IsAscii(s) && (Like(s, p) <==> !LikeIgnoringCase(s, p))
  }

  predicate HasLetter(p: Bytes) {
    exists i :: 0 <= i < |p| && IsLetter(p[i])
  }

  lemma {:induction false} LetterFree(s: Bytes, p: Bytes)
    requires !HasLetter(p)
    ensures Like(s, p) <==> LikeIgnoringCase(s, p)
    decreases |p|
  {
    if p == [] {
      LikeEmptyPattern(s);
      LikeEmptyPattern(Lower(s));
      assert Lower(p) == [];
    } else {
      var q := Lower(p);
      assert q[0] == p[0] && q[1..] == Lower(p[1..]);
      assert !HasLetter(p[1..]);
      if p[0] == PERCENT {
        LikePercent(s, p);
        LikePercent(Lower(s), q);
        forall k | 0 <= k <= |s| ensures Like(s[k..], p[1..]) <==> Like(Lower(s)[k..], q[1..]) {
          LetterFree(s[k..], p[1..]);
          assert Lower(s[k..]) == Lower(s)[k..];
        }
      } else {
        LikeSymbol(s, p);
        LikeSymbol(Lower(s), q);
        if s != [] {
          LetterFree(s[1..], p[1..]);
          assert Lower(s[1..]) == Lower(s)[1..];
        }
      }
    }
  }

  /** Every literal byte of the pattern occurs in what it matches. */
  lemma {:induction false} LiteralOccurs(s: Bytes, p: Bytes, i: nat)
    requires Like(s, p) && i < |p| && p[i] != PERCENT && p[i] != UNDERSCORE
    ensures p[i] in s
    decreases |p|
  {
    if p[0] == PERCENT {
      LikePercent(s, p);
      var k :| 0 <= k <= |s| && Like(s[k..], p[1..]);
      LiteralOccurs(s[k..], p[1..], i - 1);
    } else {
      LikeSymbol(s, p);
      if i > 0 {
        LiteralOccurs(s[1..], p[1..], i - 1);
      }
    }
  }

  /** With as many bytes as the pattern has symbols, every `%` is empty. */
  lemma {:induction false} ShortestMatch(s: Bytes, p: Bytes)
    requires |s| == Width(p) && Like(s, p) && p != [] && p[0] == PERCENT
    ensures Like(s, p[1..])
  {
    LikePercent(s, p);
    var k :| 0 <= k <= |s| && Like(s[k..], p[1..]);
    LikeNeedsWidth(s[k..], p[1..]);
    assert s[0..] == s;
  }

  function SwapCase(b: Byte): Byte {
    if IsUpper(b) then b + 32 else if IsLetter(b) then b - 32 else b
  }

  /** The shortest subject, with the case of every letter swapped. */
  function Swapped(p: Bytes): Bytes {
    if p == [] then []
    else (if p[0] == PERCENT then [] else if p[0] == UNDERSCORE then [PAD] else [SwapCase(p[0])]) + Swapped(p[1..])
  }

  lemma {:induction false} SwappedShape(p: Bytes)
    ensures |Swapped(p)| == Width(p)
    ensures IsAscii(p) ==> IsAscii(Swapped(p))
  {
    if p != [] {
      SwappedShape(p[1..]);
      assert IsAscii(p) ==> IsAscii(p[1..]);
    }
  }

  lemma {:induction false} SwappedMatches(p: Bytes)
    ensures LikeIgnoringCase(Swapped(p), p)
  {
    var s, q := Lower(Swapped(p)), Lower(p);
    if p == [] {
      LikeEmptyPattern([]);
      assert s == [] && q == [];
    } else {
      SwappedMatches(p[1..]);
      assert q[1..] == Lower(p[1..]);
      if p[0] == PERCENT {
        assert s[0..] == s == Lower(Swapped(p[1..]));
        LikePercent(s, q);
      } else {
        assert Swapped(p)[1..] == Swapped(p[1..]);
        assert s[1..] == Lower(Swapped(p[1..]));
        LikeSymbol(s, q);
      }
    }
  }

  lemma {:induction false} SwappedDiffers(p: Bytes)
    requires HasLetter(p)
    ensures !Like(Swapped(p), p)
  {
    var s := Swapped(p);
    SwappedShape(p);
    var i :| 0 <= i < |p| && IsLetter(p[i]);
    assert i > 0 ==> p[i] == p[1..][i - 1];
    if i > 0 {
      SwappedDiffers(p[1..]);
    }
    if p[0] == PERCENT {
      assert s == Swapped(p[1..]);
      if Like(s, p) {
        ShortestMatch(s, p);
      }
    } else {
      assert s[1..] == Swapped(p[1..]);
      LikeSymbol(s, p);
    }
  }

  /** Exactly when letter case makes the two differ, over ASCII payloads: the
      pattern has an ASCII letter and nothing outside ASCII, which no such payload
      matches either way. */
  lemma CaseMattersExactly(p: Bytes)
    ensures CaseMatters(p) <==> HasLetter(p) && IsAscii(p)
  {
    if HasLetter(p) && IsAscii(p) {
      SwappedShape(p);
      SwappedMatches(p);
      SwappedDiffers(p);
    } else {
      forall s | IsAscii(s) ensures Like(s, p) <==> LikeIgnoringCase(s, p) {
        if !HasLetter(p) {
          LetterFree(s, p);
        } else {
          NothingMatches(s, p);
        }
      }
    }
  }

  lemma NothingMatches(s: Bytes, p: Bytes)
    requires IsAscii(s) && !IsAscii(p)
    ensures !Like(s, p) && !LikeIgnoringCase(s, p)
  {
    var i :| 0 <= i < |p| && p[i] >= 128;
    if Like(s, p) {
      LiteralOccurs(s, p, i);
    }
    if LikeIgnoringCase(s, p) {
      assert Lower(p)[i] == p[i];
      LiteralOccurs(Lower(s), Lower(p), i);
    }
  }

  // ------------------------------------------------------------------ both together

  /** The live filter and the stored query select the same ASCII payloads. */
  ghost predicate SameSelection(needle: Bytes) {
    forall payload :: IsAscii(payload) ==>
      (Like(payload, PayloadPattern(needle)) <==> LikeIgnoringCase(payload, StoredPattern(needle)))
  }

  lemma {:induction false} SwappedOn(a: Bytes, b: Bytes)
    ensures Swapped(a + b) == Swapped(a) + Swapped(b)
  {
    if a == [] {
      assert a + b == b;
    } else {
      assert (a + b)[1..] == a[1..] + b;
      SwappedOn(a[1..], b);
    }
  }

  lemma SwappedWrapped(needle: Bytes)
    ensures Swapped(StoredPattern(needle)) == Swapped(needle)
  {
    SwappedOn([PERCENT] + needle, [PERCENT]);
    SwappedOn([PERCENT], needle);
  }

  /** Swapping the case of a needle's letters makes a payload that is found stored
      and not live. */
  lemma LetterDiffers(needle: Bytes)
    requires needle != [] && HasLetter(needle)
    ensures LikeIgnoringCase(Swapped(needle), StoredPattern(needle)) && !Like(Swapped(needle), PayloadPattern(needle))
  {
    var i :| 0 <= i < |needle| && IsLetter(needle[i]);
    assert StoredPattern(needle)[i + 1] == needle[i];
    SwappedWrapped(needle);
    SwappedMatches(StoredPattern(needle));
    SwappedDiffers(PayloadPattern(needle));
  }

  lemma WrappedLetters(needle: Bytes)
    requires !HasLetter(needle)
    ensures !HasLetter(StoredPattern(needle))
  {
    var p := StoredPattern(needle);
    forall i | 0 <= i < |p| ensures !IsLetter(p[i]) {
      assert 0 < i <= |needle| ==> p[i] == needle[i - 1];
    }
  }

  lemma WrappedNotAscii(needle: Bytes)
    requires needle != [] && !IsAscii(needle)
    ensures !IsAscii(StoredPattern(needle)) && !IsAscii(PayloadPattern(needle))
  {
    var i :| 0 <= i < |needle| && needle[i] >= 128;
    assert StoredPattern(needle)[i + 1] == needle[i];
  }

  /** Exactly when a live subscription and the stored query select the same
      payloads, over all ASCII payloads and for every needle that filters at all:
      the needle is not ASCII, and then neither selects any, or it has no letter and
      wrapping it makes no difference. */
  lemma LiveAgreesExactly(needle: Bytes)
    requires needle != []
    ensures SameSelection(needle) <==>
            || !IsAscii(needle)
            || (!HasLetter(needle) && (NoWildcard(needle) || OpenEnded(needle)))
  {
    if !IsAscii(needle) {
      WrappedNotAscii(needle);
      forall payload | IsAscii(payload)
        ensures !Like(payload, PayloadPattern(needle)) && !LikeIgnoringCase(payload, StoredPattern(needle))
      {
        NothingMatches(payload, PayloadPattern(needle));
        NothingMatches(payload, StoredPattern(needle));
      }
    } else if HasLetter(needle) {
      LetterDiffers(needle);
      SwappedShape(needle);
    } else {
      LetterFreeAgrees(needle);
    }
  }

  lemma LetterFreeAgrees(needle: Bytes)
    requires needle != [] && IsAscii(needle) && !HasLetter(needle)
    ensures SameSelection(needle) <==> NoWildcard(needle) || OpenEnded(needle)
  {
    WrappedLetters(needle);
    forall payload
      ensures LikeIgnoringCase(payload, StoredPattern(needle)) <==> Like(payload, StoredPattern(needle))
    {
      LetterFree(payload, StoredPattern(needle));
    }
    WrappingExactly(needle);
    if !NoWildcard(needle) && !OpenEnded(needle) {
      var payload := ClosedDiffers(needle);
    }
  }

  /** Needle `a_` on payload `bax`, and needle `abc` on payload `ABC`: found stored,
      not delivered live. */
  lemma LiveMisses()
    ensures var needle: Bytes, payload: Bytes := [97, UNDERSCORE], [98, 97, PAD];
            LikeIgnoringCase(payload, StoredPattern(needle)) && !Like(payload, PayloadPattern(needle))
    ensures var needle: Bytes, payload: Bytes := [97, 98, 99], [65, 66, 67];
            LikeIgnoringCase(payload, StoredPattern(needle)) && !Like(payload, PayloadPattern(needle))
  {
    WildcardMisses();
    var needle: Bytes, tail: Bytes, end: Bytes := [97, 98, 99], [98, 99], [99];
    assert needle[1..] == tail && tail[1..] == end && end[1..] == [];
    assert Swapped(end) == [67] + Swapped([]) == [67];
    assert Swapped(tail) == [66] + Swapped(end) == [66, 67];
    assert Swapped(needle) == [65] + Swapped(tail) == [65, 66, 67];
    assert IsLetter(needle[0]);
    LetterDiffers(needle);
  }

  lemma WildcardMisses()
    ensures var needle: Bytes, payload: Bytes := [97, UNDERSCORE], [98, 97, PAD];
            LikeIgnoringCase(payload, StoredPattern(needle)) && !Like(payload, PayloadPattern(needle))
  {
    var needle: Bytes := [97, UNDERSCORE];
    var tail: Bytes := [UNDERSCORE];
    assert needle[1..] == tail && tail[1..] == [];
    assert Instance(tail) == [PAD] + Instance([]) == [PAD];
    assert Instance(needle) == [97] + Instance(tail) == [97, PAD];
    FoundInside([98], needle, []);
    assert [98] + [97, PAD] + [] == [98, 97, PAD];
    assert Lower([98, 97, PAD]) == [98, 97, PAD] && Lower(StoredPattern(needle)) == StoredPattern(needle);
    assert needle[1] == UNDERSCORE;
    if Like([98, 97, PAD], needle) {
      FixedLength([98, 97, PAD], needle);
    }
  }
}
