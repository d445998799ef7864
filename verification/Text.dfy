/** The string functions of Go's standard library the parsers use. A string is
    a sequence of Unicode scalar values. */
module Text {
  import opened Prelude

  // --------------------------------------------------------------- cutting

  /** The first position of `c`, or the length when it is absent. */
  function IndexOf(s: string, c: char): (i: nat)
    ensures i <= |s| && c !in s[..i]
    ensures i < |s| ==> s[i] == c
    ensures i < |s| <==> c in s
  {
    if s == "" || s[0] == c then 0
    else
      var i := IndexOf(s[1..], c) + 1;
      assert s[..i] == [s[0]] + s[1..][..i - 1];
      i
  }

  /** strings.Cut at a one-character separator. */
  datatype Halves = Halves(before: string, after: string, found: bool)

  function Cut(s: string, c: char): Halves {
    var i := IndexOf(s, c);
    if i == |s| then Halves(s, "", false) else Halves(s[..i], s[i + 1..], true)
  }

  lemma {:induction false} IndexInFront(a: string, c: char, b: string)
    requires c !in a
    ensures IndexOf(a + [c] + b, c) == |a|
  {
    if a == "" {
      assert (a + [c] + b)[0] == c;
    } else {
      assert a[0] in a;
      assert (a + [c] + b)[1..] == a[1..] + [c] + b;
      IndexInFront(a[1..], c, b);
    }
  }

  lemma CutJoined(a: string, c: char, b: string)
    requires c !in a
    ensures Cut(a + [c] + b, c) == Halves(a, b, true)
  {
    IndexInFront(a, c, b);
    assert (a + [c] + b)[..|a|] == a && (a + [c] + b)[|a| + 1..] == b;
  }

  lemma CutAbsent(s: string, c: char)
    requires c !in s
    ensures Cut(s, c) == Halves(s, "", false)
  {
  }

  // -------------------------------------------------------- split and join

  /** strings.Split: the empty string splits into one empty piece. */
  function Split(s: string, sep: char): (pieces: seq<string>)
    ensures pieces != []
    decreases |s|
  {
    var h := Cut(s, sep);
    if !h.found then [s] else [h.before] + Split(h.after, sep)
  }

  function Join(pieces: seq<string>, sep: string): string {
    if pieces == [] then ""
    else if |pieces| == 1 then pieces[0]
    else pieces[0] + sep + Join(pieces[1..], sep)
  }

  lemma {:induction false} SplitJoined(pieces: seq<string>, sep: char)
    requires pieces != [] && forall i :: 0 <= i < |pieces| ==> sep !in pieces[i]
    ensures Split(Join(pieces, [sep]), sep) == pieces
  {
    if |pieces| == 1 {
      CutAbsent(pieces[0], sep);
    } else {
      CutJoined(pieces[0], sep, Join(pieces[1..], [sep]));
      SplitJoined(pieces[1..], sep);
    }
  }

  lemma {:induction false} JoinSnoc(pieces: seq<string>, last: string, sep: string)
    requires pieces != []
    ensures Join(pieces + [last], sep) == Join(pieces, sep) + sep + last
  {
    if |pieces| > 1 {
      assert (pieces + [last])[1..] == pieces[1..] + [last];
      JoinSnoc(pieces[1..], last, sep);
      assert pieces[0] + sep + (Join(pieces[1..], sep) + sep + last)
          == (pieces[0] + sep + Join(pieces[1..], sep)) + sep + last;
    } else {
      assert (pieces + [last])[1..] == [last];
    }
  }

  // --------------------------------------------------------------- trimming

  /** unicode.IsSpace. */
  predicate IsSpace(c: char) {
    || '\t' <= c <= '\r' || c == ' ' || c == '\U{85}' || c == '\U{A0}' || c == '\U{1680}'
    || '\U{2000}' <= c <= '\U{200A}' || c == '\U{2028}' || c == '\U{2029}'
    || c == '\U{202F}' || c == '\U{205F}' || c == '\U{3000}'
  }

  function TrimLeft(s: string): string {
    if s != "" && IsSpace(s[0]) then TrimLeft(s[1..]) else s
  }

  function TrimRight(s: string): string {
    if s != "" && IsSpace(s[|s| - 1]) then TrimRight(s[..|s| - 1]) else s
  }

  /** strings.TrimSpace. */
  function TrimSpace(s: string): string {
    TrimRight(TrimLeft(s))
  }

  /** No space at either end. */
  predicate Tight(s: string) {
    s == "" || (!IsSpace(s[0]) && !IsSpace(s[|s| - 1]))
  }

  lemma TrimTight(s: string)
    requires Tight(s)
    ensures TrimSpace(s) == s
  {
  }

  lemma {:induction false} TrimRightSpaces(s: string, blank: string)
    requires Tight(s) && forall i :: 0 <= i < |blank| ==> IsSpace(blank[i])
    ensures TrimRight(s + blank) == s
  {
    if blank == "" {
      assert s + blank == s;
    } else {
      assert (s + blank)[..|s + blank| - 1] == s + blank[..|blank| - 1];
      TrimRightSpaces(s, blank[..|blank| - 1]);
    }
  }

  lemma {:induction false} TrimRightKeeps(a: string, b: string)
    requires TrimRight(b) != ""
    ensures TrimRight(a + b) == a + TrimRight(b)
  {
    assert (a + b)[|a + b| - 1] == b[|b| - 1];
    if IsSpace(b[|b| - 1]) {
      assert (a + b)[..|a + b| - 1] == a + b[..|b| - 1];
      TrimRightKeeps(a, b[..|b| - 1]);
    }
  }

  /** Every line followed by a newline. */
  function Terminated(lines: seq<string>): string {
    if lines == [] then "" else lines[0] + "\n" + Terminated(lines[1..])
  }

  /** Trimming terminated lines trims the last one and unterminates it. */
  lemma {:induction false} TrimTerminated(lines: seq<string>)
    requires lines != [] && TrimRight(lines[|lines| - 1]) != ""
    ensures TrimRight(Terminated(lines)) == Join(lines[..|lines| - 1] + [TrimRight(lines[|lines| - 1])], "\n")
    ensures TrimRight(Terminated(lines)) != ""
  {
    var text := Terminated(lines);
    if |lines| == 1 {
      assert text == lines[0] + "\n" && text[..|text| - 1] == lines[0];
      assert lines[..0] + [TrimRight(lines[0])] == [TrimRight(lines[0])];
    } else {
      var rest := lines[1..];
      TrimTerminated(rest);
      TrimRightKeeps(lines[0] + "\n", Terminated(rest));
      var seen := lines[..|lines| - 1] + [TrimRight(lines[|lines| - 1])];
      assert seen[1..] == rest[..|rest| - 1] + [TrimRight(rest[|rest| - 1])];
    }
  }

  lemma TrimSpaceTerminated(lines: seq<string>)
    requires lines != [] && lines[0] != "" && !IsSpace(lines[0][0]) && TrimRight(lines[|lines| - 1]) != ""
    ensures TrimSpace(Terminated(lines)) == Join(lines[..|lines| - 1] + [TrimRight(lines[|lines| - 1])], "\n")
  {
    assert Terminated(lines)[0] == lines[0][0];
    TrimTerminated(lines);
  }

  lemma TrimSpaceBefore(s: string)
    requires s != "" && Tight(s)
    ensures TrimSpace(" " + s) == s
  {
    var padded := " " + s;
    assert padded[0] == ' ' && padded[1..] == s;
    assert TrimLeft(padded) == TrimLeft(s) == s;
  }

  // ---------------------------------------------------------------- decimals

  predicate IsDigit(c: char) {
    '0' <= c <= '9'
  }

  /** strconv.Itoa for naturals. */
  function Decimal(n: nat): (s: string)
    ensures s != "" && forall i :: 0 <= i < |s| ==> IsDigit(s[i])
  {
    if n < 10 then [('0' as int + n) as char]
    else Decimal(n / 10) + [('0' as int + n % 10) as char]
  }

  function DecimalValue(s: string): nat
    requires forall i :: 0 <= i < |s| ==> IsDigit(s[i])
  {
    if s == "" then 0 else
      assert IsDigit(s[|s| - 1]);
      10 * DecimalValue(s[..|s| - 1]) + (s[|s| - 1] as int - '0' as int)
  }

  const MAX_INT: int := 0x7FFF_FFFF_FFFF_FFFF

  /** strconv.Atoi on a 64-bit platform; None is an error. */
  function Atoi(s: string): Option<int> {
    var negative := s != "" && s[0] == '-';
    var digits := if s != "" && (s[0] == '-' || s[0] == '+') then s[1..] else s;
    if digits == "" || !(forall i :: 0 <= i < |digits| ==> IsDigit(digits[i])) then None
    else
      var n: int := DecimalValue(digits) * if negative then -1 else 1;
      if -MAX_INT - 1 <= n <= MAX_INT then Some(n) else None
  }

  lemma {:induction false} DecimalReadsBack(n: nat)
    ensures DecimalValue(Decimal(n)) == n
  {
    if n >= 10 {
      DecimalReadsBack(n / 10);
      var s := Decimal(n);
      assert s[..|s| - 1] == Decimal(n / 10);
    } else {
      assert Decimal(n)[..0] == "";
    }
  }

  lemma AtoiReadsBack(n: nat)
    requires n <= MAX_INT
    ensures Atoi(Decimal(n)) == Some(n)
  {
    DecimalReadsBack(n);
    assert IsDigit(Decimal(n)[0]);
  }

  /** One sign in front is read too. */
  lemma AtoiSigned(n: nat)
    requires n <= MAX_INT
    ensures Atoi(['-'] + Decimal(n)).Some? && Atoi(['-'] + Decimal(n)).value == -(n as int)
    ensures Atoi(['+'] + Decimal(n)) == Some(n)
  {
    DecimalReadsBack(n);
    assert (['-'] + Decimal(n))[1..] == Decimal(n) && (['+'] + Decimal(n))[1..] == Decimal(n);
  }
}
