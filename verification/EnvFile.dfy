/** The dotenv reader (internal/envfile/envfile.go). */
module EnvFile {
  import opened Prelude
  import opened Text

  type Vars = map<string, string>

  // ------------------------------------------------------------------ expansion

  /** The text starts with `${` and has a `}` somewhere after it. */
  predicate StartsReference(s: string) {
    |s| >= 2 && s[0] == '$' && s[1] == '{' && '}' in s[2..]
  }

  /** What `${key}` stands for: a variable of the file, else a nonempty variable
      of the process, else itself. */
  function Value(key: string, locals: Vars, env: Vars): string {
    if key in locals then locals[key]
    else if key in env && env[key] != "" then env[key]
    else "${" + key + "}"
  }

  /** Key and remainder of a text that starts with a reference. */
  function KeyOf(s: string): string
    requires StartsReference(s)
  {
    s[2..][..IndexOf(s[2..], '}')]
  }

  function AfterReference(s: string): (t: string)
    requires StartsReference(s)
    ensures |t| < |s|
  {
    s[2..][IndexOf(s[2..], '}') + 1..]
  }

  function Expanded(s: string, locals: Vars, env: Vars): string
    decreases |s|
  {
    if s == "" then ""
    else if StartsReference(s) then Value(KeyOf(s), locals, env) + Expanded(AfterReference(s), locals, env)
    else [s[0]] + Expanded(s[1..], locals, env)
  }

  /** The length of the key of the reference at `i`, if there is one. */
  function KeyLength(s: string, i: nat): (n: Option<nat>)
    requires i < |s|
    ensures n.Some? ==> i + 2 + n.value < |s| && s[i] == '$' && s[i + 1] == '{' && s[i + 2 + n.value] == '}'
  {
    if i + 2 <= |s| && s[i] == '$' && s[i + 1] == '{' && IndexOf(s[i + 2..], '}') < |s[i + 2..]|
    then Some(IndexOf(s[i + 2..], '}')) else None
  }

  /** `whole` is `out` and then `rest`. */
  ghost predicate WrittenTo(whole: string, out: string, rest: string) {
    whole == out + rest
  }

  lemma WriteOn(whole: string, out: string, rest: string, text: string, rest': string)
    requires WrittenTo(whole, out, rest) && WrittenTo(rest, text, rest')
    ensures WrittenTo(whole, out + text, rest')
  {
    assert out + (text + rest') == out + text + rest';
  }

  lemma LiteralParsed(s: string, i: nat)
    requires i < |s| && KeyLength(s, i).None?
    ensures !StartsReference(s[i..]) && s[i..][1..] == s[i + 1..]
  {
    assert |s[i..]| >= 2 ==> s[i..][2..] == s[i + 2..];
  }

  lemma ReferenceParsed(s: string, i: nat, n: nat)
    requires i < |s| && KeyLength(s, i) == Some(n)
    ensures StartsReference(s[i..]) && KeyOf(s[i..]) == s[i + 2..i + 2 + n]
    ensures AfterReference(s[i..]) == s[i + 2 + n + 1..]
  {
    assert s[i..][2..] == s[i + 2..];
  }

  /** What a reference at `i` is replaced with. */
  method Resolve(s: string, i: nat, n: nat, locals: Vars, env: Vars) returns (text: string)
    requires i + 2 + n < |s| && s[i] == '$' && s[i + 1] == '{' && s[i + 2 + n] == '}'
    ensures text == Value(s[i + 2..i + 2 + n], locals, env)
  {
    var key := s[i + 2..i + 2 + n];
    if key in locals {
      return locals[key];
    }
    if key in env && env[key] != "" {
      return env[key];
    }
    assert s[i..i + 2 + n + 1] == "${" + key + "}";
    return s[i..i + 2 + n + 1];
  }

  /** The text a turn writes for the front of `left`, and what it leaves. */
  predicate TurnIs(left: string, locals: Vars, env: Vars, text: string, tail: string) {
    if left == "" then false
    else if StartsReference(left) then text == Value(KeyOf(left), locals, env) && tail == AfterReference(left)
    else text == [left[0]] && tail == left[1..]
  }

  lemma TurnExpands(left: string, locals: Vars, env: Vars, text: string, tail: string)
    requires TurnIs(left, locals, env, text, tail)
    ensures WrittenTo(Expanded(left, locals, env), text, Expanded(tail, locals, env))
  {
  }

  /** One turn of the loop. */
  method Turn(s: string, i: nat, locals: Vars, env: Vars) returns (text: string, next: nat)
    requires i < |s|
    ensures i < next <= |s| && TurnIs(s[i..], locals, env, text, s[next..])
  {
    var n := KeyLength(s, i);
    if n.None? {
      LiteralParsed(s, i);
      return [s[i]], i + 1;
    }
    ReferenceParsed(s, i, n.value);
    text := Resolve(s, i, n.value, locals, env);
    next := i + 2 + n.value + 1;
  }

  method ExpandVars(s: string, locals: Vars, env: Vars) returns (out: string)
    ensures out == Expanded(s, locals, env)
  {
    out := "";
    var i := 0;
    ghost var whole, rest := Expanded(s, locals, env), Expanded(s[0..], locals, env);
    assert s[0..] == s;
    while i < |s|
      invariant 0 <= i <= |s|
      invariant rest == Expanded(s[i..], locals, env)
      invariant WrittenTo(whole, out, rest)
      decreases |s| - i
    {
      var text, next := Turn(s, i, locals, env);
      TurnExpands(s[i..], locals, env, text, s[next..]);
      ghost var after := Expanded(s[next..], locals, env);
      WriteOn(whole, out, rest, text, after);
      out, i, rest := out + text, next, after;
    }
    assert s[i..] == "";
  }

  // --------------------------------------------------- segments, replaced once

  datatype Segment = Literal(c: char) | Reference(key: string)

  function Shown(seg: Segment): string {
    match seg
    case Literal(c) => [c]
    case Reference(key) => "${" + key + "}"
  }

  function ShownAll(segs: seq<Segment>): string {
    if segs == [] then "" else Shown(segs[0]) + ShownAll(segs[1..])
  }

  function Replaced(seg: Segment, locals: Vars, env: Vars): string {
    match seg
    case Literal(c) => [c]
    case Reference(key) => Value(key, locals, env)
  }

  function ReplacedAll(segs: seq<Segment>, locals: Vars, env: Vars): string {
    if segs == [] then "" else Replaced(segs[0], locals, env) + ReplacedAll(segs[1..], locals, env)
  }

  /** The segments of their text: keys end at the first `}`, and no literal `$`
      starts something that could be read as a reference. */
  ghost predicate Segmented(segs: seq<Segment>) {
    segs == [] ||
    (&& (segs[0].Reference? ==> '}' !in segs[0].key)
     && (segs[0].Literal? ==> !StartsReference(ShownAll(segs)))
     && Segmented(segs[1..]))
  }

  function Segments(s: string): seq<Segment>
    decreases |s|
  {
    if s == "" then []
    else if StartsReference(s) then [Reference(KeyOf(s))] + Segments(AfterReference(s))
    else [Literal(s[0])] + Segments(s[1..])
  }

  lemma ReferenceParts(key: string, rest: string)
    requires '}' !in key
    ensures StartsReference("${" + key + "}" + rest)
    ensures KeyOf("${" + key + "}" + rest) == key && AfterReference("${" + key + "}" + rest) == rest
  {
    var s := "${" + key + "}" + rest;
    var t := key + ['}'] + rest;
    assert s[2..] == t;
    IndexInFront(key, '}', rest);
    assert t[|key|] == '}' && t[..|key|] == key && t[|key| + 1..] == rest;
  }

  lemma Braced(s: string, end: nat)
    requires end + 2 < |s| && s[0] == '$' && s[1] == '{' && s[2..][end] == '}'
    ensures s == "${" + s[2..][..end] + "}" + s[2..][end + 1..]
  {
  }

  lemma SplitReference(s: string)
    requires StartsReference(s)
    ensures '}' !in KeyOf(s) && s == "${" + KeyOf(s) + "}" + AfterReference(s)
  {
    Braced(s, IndexOf(s[2..], '}'));
  }

  lemma ReferenceCons(s: string, segs: seq<Segment>)
    requires StartsReference(s) && Segmented(segs) && ShownAll(segs) == AfterReference(s)
    ensures Segmented([Reference(KeyOf(s))] + segs) && ShownAll([Reference(KeyOf(s))] + segs) == s
  {
    var all := [Reference(KeyOf(s))] + segs;
    assert all[1..] == segs;
    SplitReference(s);
  }

  lemma LiteralCons(s: string, segs: seq<Segment>)
    requires s != "" && !StartsReference(s) && Segmented(segs) && ShownAll(segs) == s[1..]
    ensures Segmented([Literal(s[0])] + segs) && ShownAll([Literal(s[0])] + segs) == s
  {
    var all := [Literal(s[0])] + segs;
    assert all[1..] == segs;
    assert s == [s[0]] + s[1..];
  }

  /** Every string has segments, and only one way to have them. */
  lemma {:induction false} SegmentsExist(s: string)
    ensures Segmented(Segments(s)) && ShownAll(Segments(s)) == s
    decreases |s|
  {
    if s == "" {
    } else if StartsReference(s) {
      SegmentsExist(AfterReference(s));
      ReferenceCons(s, Segments(AfterReference(s)));
    } else {
      SegmentsExist(s[1..]);
      LiteralCons(s, Segments(s[1..]));
    }
  }

  lemma ReferenceSegment(key: string, rest: string)
    requires '}' !in key
    ensures Segments("${" + key + "}" + rest) == [Reference(key)] + Segments(rest)
  {
    ReferenceParts(key, rest);
  }

  lemma LiteralSegment(c: char, rest: string)
    requires !StartsReference([c] + rest)
    ensures Segments([c] + rest) == [Literal(c)] + Segments(rest)
  {
    assert ([c] + rest)[1..] == rest;
  }

  lemma SegmentBack(seg: Segment, rest: string, more: seq<Segment>)
    requires seg.Reference? ==> '}' !in seg.key
    requires seg.Literal? ==> !StartsReference(Shown(seg) + rest)
    requires Segments(rest) == more
    ensures Segments(Shown(seg) + rest) == [seg] + more
  {
    match seg
    case Reference(key) => ReferenceSegment(key, rest);
    case Literal(c) => LiteralSegment(c, rest);
  }

  lemma ShownCons(segs: seq<Segment>)
    requires segs != []
    ensures ShownAll(segs) == Shown(segs[0]) + ShownAll(segs[1..])
  {
  }

  lemma {:induction false} SegmentsUnique(segs: seq<Segment>)
    requires Segmented(segs)
    ensures Segments(ShownAll(segs)) == segs
  {
    if segs != [] {
      SegmentsUnique(segs[1..]);
      ShownCons(segs);
      SegmentBack(segs[0], ShownAll(segs[1..]), segs[1..]);
      assert segs == [segs[0]] + segs[1..];
    }
  }

  /** One pass: the expansion is the text's segments, each replaced once; what a
      replacement brings in is never looked at again. */
  lemma {:induction false} ExpandsOnce(segs: seq<Segment>, locals: Vars, env: Vars)
    requires Segmented(segs)
    ensures Expanded(ShownAll(segs), locals, env) == ReplacedAll(segs, locals, env)
  {
    if segs != [] {
      ExpandsOnce(segs[1..], locals, env);
      var rest := ShownAll(segs[1..]);
      match segs[0]
      case Reference(key) => ReferenceParts(key, rest);
      case Literal(c) => assert ([c] + rest)[1..] == rest;
    }
  }

  predicate HasDollarBrace(s: string) {
    exists i :: 0 <= i < |s| - 1 && s[i] == '$' && s[i + 1] == '{'
  }

  lemma {:induction false} PlainTextStays(s: string, locals: Vars, env: Vars)
    requires !HasDollarBrace(s)
    ensures Expanded(s, locals, env) == s
  {
    if s != "" {
      assert s == [s[0]] + s[1..];
      PlainTextStays(s[1..], locals, env);
    }
  }

  // -------------------------------------------------------------- scanning lines

  /** Bytes of a character in UTF-8. */
  function Utf8Size(c: char): nat {
    if c < '\U{80}' then 1 else if c < '\U{800}' then 2 else if c < '\U{10000}' then 3 else 4
  }

  function Utf8Length(s: string): nat {
    if s == "" then 0 else Utf8Size(s[0]) + Utf8Length(s[1..])
  }

  /** The scanner's buffer: a line has to fit in it together with its newline. */
  const MAX_TOKEN := 16 * 1024 * 1024

  predicate Fits(line: string) {
    Utf8Length(line) < MAX_TOKEN
  }

  function DropCR(line: string): string {
    if line != "" && line[|line| - 1] == '\r' then line[..|line| - 1] else line
  }

  /** The lines bufio.Scanner delivers: it stops for good at one that does not
      fit. */
  function ScanLines(s: string): seq<string>
    decreases |s|
  {
    if s == "" then []
    else
      var h := Cut(s, '\n');
      if !Fits(h.before) then []
      else [DropCR(h.before)] + ScanLines(h.after)
  }

  // --------------------------------------------------------------- parsing a line

  function TrimBlanks(s: string): string {
    if s != "" && (s[0] == ' ' || s[0] == '\t') then TrimBlanks(s[1..]) else s
  }

  function TrimBlanksRight(s: string): string {
    if s != "" && (s[|s| - 1] == ' ' || s[|s| - 1] == '\t') then TrimBlanksRight(s[..|s| - 1]) else s
  }

  predicate IsAlpha(c: char) {
    'A' <= c <= 'Z' || 'a' <= c <= 'z' || c == '_'
  }

  predicate ValidKey(key: string) {
    key != "" && forall i :: 0 <= i < |key| ==> IsAlpha(key[i]) || (i > 0 && IsDigit(key[i]))
  }

  /** The first position of ` #`, or the length. */
  function CommentAt(s: string): (i: nat)
    ensures i <= |s|
  {
    if s == "" then 0
    else if |s| >= 2 && s[0] == ' ' && s[1] == '#' then 0
    else 1 + CommentAt(s[1..])
  }

  function StripQuotesAndComment(raw: string): string {
    var s := TrimSpace(raw);
    if |s| >= 2 && s[0] == s[|s| - 1] && (s[0] == '"' || s[0] == '\'') then s[1..|s| - 1]
    else if CommentAt(s) < |s| then TrimBlanksRight(s[..CommentAt(s)])
    else s
  }

  const EXPORT := "export "

  function WithLine(vars: Vars, text: string, env: Vars): Vars {
    var line := TrimBlanks(text);
    if line == "" || line[0] == '#' then vars
    else
      var h := Cut(if EXPORT <= line then line[|EXPORT|..] else line, '=');
      var key := TrimSpace(h.before);
      if !h.found || !ValidKey(key) then vars
      else vars[key := Expanded(StripQuotesAndComment(TrimSpace(h.after)), vars, env)]
  }

  function WithLines(lines: seq<string>, env: Vars): Vars {
    if lines == [] then map[] else WithLine(WithLines(lines[..|lines| - 1], env), lines[|lines| - 1], env)
  }

  method ParseLine(vars: Vars, text: string, env: Vars) returns (out: Vars)
    ensures out == WithLine(vars, text, env)
  {
    var line := TrimBlanks(text);
    if line == "" || line[0] == '#' {
      return vars;
    }
    if EXPORT <= line {
      line := line[|EXPORT|..];
    }
    var h := Cut(line, '=');
    if !h.found {
      return vars;
    }
    var key := TrimSpace(h.before);
    if !ValidKey(key) {
      return vars;
    }
    var value := StripQuotesAndComment(TrimSpace(h.after));
    var expanded := ExpandVars(value, vars, env);
    out := vars[key := expanded];
  }

  lemma OneMoreLine(lines: seq<string>, i: nat, env: Vars)
    requires i < |lines|
    ensures WithLines(lines[..i + 1], env) == WithLine(WithLines(lines[..i], env), lines[i], env)
  {
    assert lines[..i + 1][..i] == lines[..i];
  }

  method ParseLines(lines: seq<string>, env: Vars) returns (vars: Vars)
    ensures vars == WithLines(lines, env)
  {
    vars := map[];
    for i := 0 to |lines|
      invariant vars == WithLines(lines[..i], env)
    {
      OneMoreLine(lines, i, env);
      vars := ParseLine(vars, lines[i], env);
    }
    assert lines[..|lines|] == lines;
  }

  method Parse(input: string, env: Vars) returns (vars: Vars)
    ensures vars == WithLines(ScanLines(input), env)
  {
    var lines := ScanLines(input);
    vars := ParseLines(lines, env);
  }

  // ------------------------------------------------------------------ round trip

  datatype Entry = Entry(key: string, value: string)

  predicate Writable(e: Entry) {
    ValidKey(e.key) && '\n' !in e.value
  }

  ghost predicate AllWritable(es: seq<Entry>) {
    forall i :: 0 <= i < |es| ==> Writable(es[i])
  }

  /** KEY="value" */
  function LineOf(e: Entry): string {
    e.key + ['='] + (['"'] + e.value + ['"'])
  }

  function FileOf(es: seq<Entry>): string {
    if es == [] then "" else LineOf(es[0]) + ['\n'] + FileOf(es[1..])
  }

  function LinesOf(es: seq<Entry>): seq<string> {
    seq(|es|, i requires 0 <= i < |es| => LineOf(es[i]))
  }

  /** The variables of a list of assignments, each value expanded against the
      ones before it, later assignments winning. */
  function Assigned(es: seq<Entry>, env: Vars): Vars {
    if es == [] then map[]
    else
      var before := Assigned(es[..|es| - 1], env);
      before[es[|es| - 1].key := Expanded(es[|es| - 1].value, before, env)]
  }

  /** How many leading entries have a line that fits. */
  function Fitting(es: seq<Entry>): (n: nat)
    ensures n <= |es| && (forall i :: 0 <= i < n ==> Fits(LineOf(es[i])))
    ensures n < |es| ==> !Fits(LineOf(es[n]))
  {
    if es == [] || !Fits(LineOf(es[0])) then 0 else 1 + Fitting(es[1..])
  }

  lemma LineShape(e: Entry)
    requires Writable(e)
    ensures LineOf(e) != "" && '\n' !in LineOf(e) && DropCR(LineOf(e)) == LineOf(e)
    ensures IsAlpha(LineOf(e)[0]) && ' ' !in e.key && '=' !in e.key
  {
    var l := LineOf(e);
    assert l[0] == e.key[0] && l[|l| - 1] == '"';
    forall i | 0 <= i < |l| ensures l[i] != '\n' {
      if i > |e.key| + 1 && i < |l| - 1 {
        assert l[i] == e.value[i - |e.key| - 2];
      }
    }
  }

  lemma ScanOne(line: string, rest: string)
    requires '\n' !in line
    ensures ScanLines(line + ['\n'] + rest) == if Fits(line) then [DropCR(line)] + ScanLines(rest) else []
  {
    CutJoined(line, '\n', rest);
  }

  lemma FittingTail(es: seq<Entry>)
    requires es != [] && Fits(LineOf(es[0]))
    ensures Fitting(es) == Fitting(es[1..]) + 1
  {
  }

  lemma LinesCons(e: Entry, es: seq<Entry>)
    ensures LinesOf([e] + es) == [LineOf(e)] + LinesOf(es)
  {
  }

  lemma LinesFront(es: seq<Entry>, n: nat)
    requires n < |es|
    ensures LinesOf(es[..n + 1]) == [LineOf(es[0])] + LinesOf(es[1..][..n])
  {
    LinesCons(es[0], es[1..][..n]);
    assert es[..n + 1] == [es[0]] + es[1..][..n];
  }

  lemma FittingLines(es: seq<Entry>)
    requires es != [] && Fits(LineOf(es[0]))
    ensures LinesOf(es[..Fitting(es)]) == [LineOf(es[0])] + LinesOf(es[1..][..Fitting(es[1..])])
  {
    FittingTail(es);
    LinesFront(es, Fitting(es[1..]));
  }

  lemma {:induction false} ScannedBack(es: seq<Entry>)
    requires AllWritable(es)
    ensures ScanLines(FileOf(es)) == LinesOf(es[..Fitting(es)])
  {
    if es != [] {
      var line := LineOf(es[0]);
      LineShape(es[0]);
      ScanOne(line, FileOf(es[1..]));
      ScannedBack(es[1..]);
      if Fits(line) {
        FittingLines(es);
      }
    }
  }

  lemma QuotedValue(value: string)
    ensures var q := ['"'] + value + ['"'];
            TrimSpace(q) == q && StripQuotesAndComment(q) == value
  {
    var q := ['"'] + value + ['"'];
    assert q[0] == '"' && q[|q| - 1] == '"' && q[1..|q| - 1] == value;
    TrimTight(q);
  }

  lemma NotExport(e: Entry)
    requires Writable(e)
    ensures !(EXPORT <= LineOf(e)) && TrimBlanks(LineOf(e)) == LineOf(e) && LineOf(e)[0] != '#'
  {
    LineShape(e);
    var l := LineOf(e);
    if |e.key| >= 7 {
      assert l[6] == e.key[6] && e.key[6] in e.key;
    } else {
      assert l[|e.key|] == '=';
    }
    assert EXPORT[6] == ' ' && forall i :: 0 <= i < 6 ==> EXPORT[i] != '=';
  }

  lemma KeyTrims(key: string)
    requires ValidKey(key)
    ensures TrimSpace(key) == key
  {
    TrimTight(key);
  }

  lemma LineReadsBack(vars: Vars, e: Entry, env: Vars)
    requires Writable(e)
    ensures WithLine(vars, LineOf(e), env) == vars[e.key := Expanded(e.value, vars, env)]
  {
    LineShape(e);
    NotExport(e);
    CutJoined(e.key, '=', ['"'] + e.value + ['"']);
    KeyTrims(e.key);
    QuotedValue(e.value);
  }

  lemma {:induction false} LinesReadBack(es: seq<Entry>, env: Vars)
    requires AllWritable(es)
    ensures WithLines(LinesOf(es), env) == Assigned(es, env)
  {
    if es != [] {
      var front := es[..|es| - 1];
      LinesReadBack(front, env);
      assert LinesOf(es)[..|es| - 1] == LinesOf(front);
      LineReadsBack(Assigned(front, env), es[|es| - 1], env);
    }
  }

  /** Printing assignments and parsing them gives exactly the assignments in front
      of the first line that does not fit the scanner; the rest is dropped. */
  lemma DotenvRoundTrip(es: seq<Entry>, env: Vars)
    requires AllWritable(es)
    ensures WithLines(ScanLines(FileOf(es)), env) == Assigned(es[..Fitting(es)], env)
  {
    ScannedBack(es);
    LinesReadBack(es[..Fitting(es)], env);
  }

  function LastWins(es: seq<Entry>): Vars {
    if es == [] then map[] else LastWins(es[..|es| - 1])[es[|es| - 1].key := es[|es| - 1].value]
  }

  ghost predicate NoReferences(es: seq<Entry>) {
    forall i :: 0 <= i < |es| ==> !HasDollarBrace(es[i].value)
  }

  lemma {:induction false} PlainAssigned(es: seq<Entry>, env: Vars)
    requires NoReferences(es)
    ensures Assigned(es, env) == LastWins(es)
  {
    if es != [] {
      PlainAssigned(es[..|es| - 1], env);
      PlainTextStays(es[|es| - 1].value, Assigned(es[..|es| - 1], env), env);
    }
  }

  /** Entry `i` is the last one of its key. */
  ghost predicate LastOfKey(es: seq<Entry>, i: int) {
    0 <= i < |es| && forall j :: i < j < |es| ==> es[j].key != es[i].key
  }

  lemma {:induction false} LastWinsHolds(es: seq<Entry>, i: int)
    requires LastOfKey(es, i)
    ensures es[i].key in LastWins(es) && LastWins(es)[es[i].key] == es[i].value
  {
    if i < |es| - 1 {
      assert es[..|es| - 1][i] == es[i];
      LastWinsHolds(es[..|es| - 1], i);
    }
  }

  lemma {:induction false} LastExists(es: seq<Entry>, k: string) returns (i: int)
    requires k in LastWins(es)
    ensures LastOfKey(es, i) && es[i].key == k
  {
    var n := |es| - 1;
    if es[n].key == k {
      i := n;
    } else {
      i := LastExists(es[..n], k);
      assert forall j :: 0 <= j < n ==> es[..n][j] == es[j];
    }
  }

  /** The entry kept last for the key of dropped entry `i` has the same value. */
  ghost predicate StillSet(es: seq<Entry>, n: nat, i: int)
    requires n <= |es| && 0 <= i < |es|
  {
    exists k :: LastOfKey(es[..n], k) && es[k].key == es[i].key && es[k].value == es[i].value
  }

  /** Dropping the entries from `n` on loses nothing: every value the dropped
      ones would have left was already there. */
  ghost predicate DroppedInVain(es: seq<Entry>, n: nat)
    requires n <= |es|
  {
    forall i :: n <= i < |es| && LastOfKey(es, i) ==> StillSet(es, n, i)
  }

  lemma SameAtKey(es: seq<Entry>, n: nat, k: string)
    requires n <= |es| && DroppedInVain(es, n)
    ensures k in LastWins(es[..n]) <==> k in LastWins(es)
    ensures k in LastWins(es) ==> LastWins(es[..n])[k] == LastWins(es)[k]
  {
    var kept := es[..n];
    assert forall j :: 0 <= j < n ==> kept[j] == es[j];
    if k in LastWins(es) {
      var i := LastExists(es, k);
      LastWinsHolds(es, i);
      if i < n {
        LastWinsHolds(kept, i);
      } else {
        var j :| LastOfKey(kept, j) && es[j].key == es[i].key && es[j].value == es[i].value;
        LastWinsHolds(kept, j);
      }
    } else if k in LastWins(kept) {
      var i := LastExists(kept, k);
      LastWinsKeys(es, k);
      assert es[i].key == k;
    }
  }

  lemma DroppedExactly(es: seq<Entry>, n: nat)
    requires n <= |es|
    ensures LastWins(es[..n]) == LastWins(es) <==> DroppedInVain(es, n)
  {
    var kept := es[..n];
    if DroppedInVain(es, n) {
      forall k ensures k in LastWins(kept) <==> k in LastWins(es)
               ensures k in LastWins(es) ==> LastWins(kept)[k] == LastWins(es)[k]
      {
        SameAtKey(es, n, k);
      }
      assert LastWins(kept) == LastWins(es);
    }
    if LastWins(kept) == LastWins(es) {
      forall i | n <= i < |es| && LastOfKey(es, i) ensures StillSet(es, n, i) {
        LastWinsHolds(es, i);
        var k := LastExists(kept, es[i].key);
        LastWinsHolds(kept, k);
      }
    }
  }

  lemma {:induction false} LastWinsKeys(es: seq<Entry>, k: string)
    ensures k in LastWins(es) <==> exists i :: 0 <= i < |es| && es[i].key == k
  {
    if es != [] {
      var front, last := es[..|es| - 1], es[|es| - 1];
      LastWinsKeys(front, k);
      if i :| 0 <= i < |es| && es[i].key == k {
        assert i < |front| ==> front[i] == es[i];
      }
      if i :| 0 <= i < |front| && front[i].key == k {
        assert es[i] == front[i];
      }
      if last.key == k {
        assert es[|es| - 1].key == k;
      }
    }
  }

  /** Exactly when a file of values free of `${` reads back as the last-wins map:
      when the entries from the first line that does not fit on leave nothing that
      the kept ones had not left already. If every line fits there are none; for
      distinct keys that is the only way. */
  lemma PlainRoundTrip(es: seq<Entry>, env: Vars)
    requires AllWritable(es) && NoReferences(es)
    ensures WithLines(ScanLines(FileOf(es)), env) == LastWins(es) <==> DroppedInVain(es, Fitting(es))
    ensures (forall i :: 0 <= i < |es| ==> Fits(LineOf(es[i]))) ==> DroppedInVain(es, Fitting(es))
    ensures DistinctKeys(es) && DroppedInVain(es, Fitting(es)) ==> forall i :: 0 <= i < |es| ==> Fits(LineOf(es[i]))
  {
    var n := Fitting(es);
    DotenvRoundTrip(es, env);
    PlainAssigned(es[..n], env);
    DroppedExactly(es, n);
    if n < |es| && DistinctKeys(es) {
      assert LastOfKey(es, n);
      assert !StillSet(es, n, n);
    }
  }

  ghost predicate DistinctKeys(es: seq<Entry>) {
    forall i, j :: 0 <= i < j < |es| ==> es[i].key != es[j].key
  }

  lemma {:induction false} Utf8AtLeast(s: string)
    ensures |s| <= Utf8Length(s)
  {
    if s != "" {
      Utf8AtLeast(s[1..]);
    }
  }

  /** A file with one assignment whose value is 16 MiB long reads as no variables. */
  lemma LongLineIsDropped(env: Vars)
    ensures var long := Entry("KEY", seq(MAX_TOKEN, i => 'x'));
            Writable(long) && "KEY" in LastWins([long]) && WithLines(ScanLines(FileOf([long])), env) == map[]
  {
    var long := Entry("KEY", seq(MAX_TOKEN, i => 'x'));
    Utf8AtLeast(LineOf(long));
    var es := [long];
    assert Fitting(es) == 0 && es[..0] == [];
    assert AllWritable(es);
    DotenvRoundTrip(es, env);
  }

  // ------------------------------------------------- the other ways to write a line

  /** What a reference stands for: the file's own variable before the process's, a
      process variable only if it is not empty, and otherwise its own text. */
  lemma ReferenceMeans(key: string, rest: string, locals: Vars, env: Vars)
    requires '}' !in key
    ensures var text := "${" + key + "}" + rest;
            && (key in locals ==>
                  Expanded(text, locals, env) == locals[key] + Expanded(rest, locals, env))
            && (key !in locals && key in env && env[key] != "" ==>
                  Expanded(text, locals, env) == env[key] + Expanded(rest, locals, env))
            && (key !in locals && (key !in env || env[key] == "") ==>
                  Expanded(text, locals, env) == "${" + key + "}" + Expanded(rest, locals, env))
  {
    ReferenceParts(key, rest);
  }

  /** A line `KEY=after`. */
  function Assignment(key: string, after: string): string {
    key + ['='] + after
  }

  lemma AssignmentStart(key: string, after: string)
    requires ValidKey(key)
    ensures var l := Assignment(key, after);
            l != "" && l[0] != '#' && TrimBlanks(l) == l && !(EXPORT <= l) && Cut(l, '=') == Halves(key, after, true)
  {
    var l := Assignment(key, after);
    assert l[0] == key[0];
    if |key| >= 7 {
      assert l[6] == key[6];
    } else {
      assert l[|key|] == '=';
    }
    assert EXPORT[6] == ' ' && forall i :: 0 <= i < 6 ==> EXPORT[i] != '=';
    forall i | 0 <= i < |key| ensures key[i] != '=' {
    }
    CutJoined(key, '=', after);
  }

  /** Any assignment sets its key to the expansion of what is left of its value. */
  lemma AssignmentReads(vars: Vars, key: string, after: string, env: Vars)
    requires ValidKey(key)
    ensures WithLine(vars, Assignment(key, after), env)
         == vars[key := Expanded(StripQuotesAndComment(TrimSpace(after)), vars, env)]
  {
    AssignmentStart(key, after);
    KeyTrims(key);
  }

  lemma ExportStart(line: string)
    ensures var l := EXPORT + line;
            l != "" && l[0] != '#' && TrimBlanks(l) == l && EXPORT <= l && l[|EXPORT|..] == line
  {
    assert (EXPORT + line)[0] == 'e';
  }

  /** The part of WithLine after the line's start. */
  lemma LineIs(vars: Vars, line: string, rest: string, env: Vars)
    requires line != "" && line[0] != '#' && TrimBlanks(line) == line
    requires rest == if EXPORT <= line then line[|EXPORT|..] else line
    ensures var h := Cut(rest, '=');
            var key := TrimSpace(h.before);
            WithLine(vars, line, env) ==
            if !h.found || !ValidKey(key) then vars
            else vars[key := Expanded(StripQuotesAndComment(TrimSpace(h.after)), vars, env)]
  {
  }

  /** `export ` in front of an assignment changes nothing. */
  lemma ExportIsIgnored(vars: Vars, key: string, after: string, env: Vars)
    requires ValidKey(key)
    ensures WithLine(vars, EXPORT + Assignment(key, after), env) == WithLine(vars, Assignment(key, after), env)
  {
    var line := Assignment(key, after);
    ExportStart(line);
    AssignmentStart(key, after);
    LineIs(vars, EXPORT + line, line, env);
    LineIs(vars, line, line, env);
  }

  /** Quotes of either kind go, whatever is between them. */
  lemma QuotesGo(vars: Vars, key: string, quote: char, value: string, env: Vars)
    requires ValidKey(key) && (quote == '"' || quote == '\'')
    ensures WithLine(vars, Assignment(key, [quote] + value + [quote]), env) == vars[key := Expanded(value, vars, env)]
  {
    var q := [quote] + value + [quote];
    assert q[0] == quote && q[|q| - 1] == quote && q[1..|q| - 1] == value;
    TrimTight(q);
    AssignmentReads(vars, key, q, env);
  }

  predicate HasComment(s: string) {
    exists i :: 0 <= i < |s| - 1 && s[i] == ' ' && s[i + 1] == '#'
  }

  /** A word that needs no quotes: no white space at its ends, no ` #` in it, and no
      quote in front. */
  predicate Unquoted(word: string) {
    word != "" && Tight(word) && !HasComment(word) && word[0] != '"' && word[0] != '\''
  }

  lemma {:induction false} CommentFound(word: string, note: string)
    requires !HasComment(word)
    ensures CommentAt(word + " #" + note) == |word|
  {
    var s := word + " #" + note;
    if word != "" {
      assert s[1..] == word[1..] + " #" + note;
      assert s[0] == word[0] && (|word| > 1 ==> s[1] == word[1]);
      forall i | 0 <= i < |word[1..]| - 1 ensures !(word[1..][i] == ' ' && word[1..][i + 1] == '#') {
        assert word[1..][i] == word[i + 1] && word[1..][i + 1] == word[i + 2];
      }
      CommentFound(word[1..], note);
    } else {
      assert s[0] == ' ' && s[1] == '#';
    }
  }

  lemma {:induction false} NoCommentFound(word: string)
    requires !HasComment(word)
    ensures CommentAt(word) == |word|
  {
    if word != "" {
      forall i | 0 <= i < |word[1..]| - 1 ensures !(word[1..][i] == ' ' && word[1..][i + 1] == '#') {
        assert word[1..][i] == word[i + 1] && word[1..][i + 1] == word[i + 2];
      }
      NoCommentFound(word[1..]);
    }
  }

  /** An unquoted word is its own value. */
  lemma WordReads(vars: Vars, key: string, word: string, env: Vars)
    requires ValidKey(key) && Unquoted(word)
    ensures WithLine(vars, Assignment(key, word), env) == vars[key := Expanded(word, vars, env)]
  {
    TrimTight(word);
    NoCommentFound(word);
    AssignmentReads(vars, key, word, env);
  }

  /** What is left of a comment once the line's end is trimmed. */
  lemma CommentTrims(word: string, note: string) returns (rest: string)
    requires word != "" && !IsSpace(word[0])
    ensures TrimSpace(word + " #" + note) == word + " #" + rest
  {
    var s := word + " #" + note;
    assert s[0] == word[0];
    rest := TrimRightTail(word + " #", note);
  }

  lemma {:induction false} TrimRightTail(front: string, tail: string) returns (rest: string)
    requires front != "" && !IsSpace(front[|front| - 1])
    ensures TrimRight(front + tail) == front + rest
    decreases |tail|
  {
    var s := front + tail;
    if tail == "" {
      assert s == front;
      rest := "";
    } else if IsSpace(tail[|tail| - 1]) {
      assert s[..|s| - 1] == front + tail[..|tail| - 1];
      rest := TrimRightTail(front, tail[..|tail| - 1]);
    } else {
      rest := tail;
    }
  }

  lemma {:induction false} BlanksGo(word: string, blanks: string)
    requires word != "" && !IsSpace(word[|word| - 1])
    requires forall i :: 0 <= i < |blanks| ==> blanks[i] == ' ' || blanks[i] == '\t'
    ensures TrimBlanksRight(word + blanks) == word
  {
    var s := word + blanks;
    if blanks == "" {
      assert s == word;
    } else {
      assert s[..|s| - 1] == word + blanks[..|blanks| - 1];
      BlanksGo(word, blanks[..|blanks| - 1]);
    }
  }

  lemma WordBeforeComment(word: string, blanks: string, rest: string)
    requires Unquoted(word) && forall i :: 0 <= i < |blanks| ==> blanks[i] == ' ' || blanks[i] == '\t'
    requires TrimSpace(word + blanks + " #" + rest) == word + blanks + " #" + rest
    ensures StripQuotesAndComment(word + blanks + " #" + rest) == word
  {
    var front := word + blanks;
    var s := front + " #" + rest;
    assert s[0] == word[0] && s[..|front|] == front;
    forall i | 0 <= i < |front| - 1 ensures !(front[i] == ' ' && front[i + 1] == '#') {
    }
    CommentFound(front, rest);
    BlanksGo(word, blanks);
  }

  lemma {:induction false} TrimTwice(s: string)
    ensures TrimSpace(TrimSpace(s)) == TrimSpace(s)
  {
    TrimLeftEnds(s);
    TrimRightEnds(TrimLeft(s));
  }

  lemma {:induction false} TrimLeftEnds(s: string)
    ensures TrimLeft(s) == "" || !IsSpace(TrimLeft(s)[0])
  {
    if s != "" && IsSpace(s[0]) {
      TrimLeftEnds(s[1..]);
    }
  }

  lemma {:induction false} TrimRightEnds(s: string)
    ensures TrimRight(s) <= s && (TrimRight(s) == "" || !IsSpace(TrimRight(s)[|TrimRight(s)| - 1]))
  {
    if s != "" && IsSpace(s[|s| - 1]) {
      TrimRightEnds(s[..|s| - 1]);
    }
  }

  /** A comment after an unquoted word is not part of the value, nor are the blanks
      in front of it. */
  lemma CommentGoes(vars: Vars, key: string, word: string, blanks: string, note: string, env: Vars)
    requires ValidKey(key) && Unquoted(word)
    requires forall i :: 0 <= i < |blanks| ==> blanks[i] == ' ' || blanks[i] == '\t'
    ensures WithLine(vars, Assignment(key, word + blanks + " #" + note), env) == vars[key := Expanded(word, vars, env)]
  {
    var after := word + blanks + " #" + note;
    var rest := CommentTrims(word + blanks, note);
    TrimTwice(after);
    WordBeforeComment(word, blanks, rest);
    AssignmentReads(vars, key, after, env);
  }

  /** A line that is blank or a comment, also after blanks, or has no `=`, assigns
      nothing. */
  lemma OtherLinesAreSkipped(vars: Vars, blanks: string, line: string, env: Vars)
    requires forall i :: 0 <= i < |blanks| ==> blanks[i] == ' ' || blanks[i] == '\t'
    requires line == "" || line[0] == '#' || '=' !in line
    ensures WithLine(vars, blanks + line, env) == vars
  {
    TrimBlanksShape(blanks, line);
  }

  lemma {:induction false} TrimBlanksShape(blanks: string, line: string)
    requires forall i :: 0 <= i < |blanks| ==> blanks[i] == ' ' || blanks[i] == '\t'
    ensures TrimBlanks(blanks + line) == TrimBlanks(line)
    ensures forall c :: c in TrimBlanks(line) ==> c in line
    decreases |blanks| + |line|
  {
    if blanks != "" {
      assert (blanks + line)[1..] == blanks[1..] + line;
      TrimBlanksShape(blanks[1..], line);
    } else {
      assert blanks + line == line;
      if line != "" && (line[0] == ' ' || line[0] == '\t') {
        TrimBlanksShape("", line[1..]);
      }
    }
  }

  /** A name: ASCII letters, digits and underscores, not starting with a digit. */
  lemma KeysAre(key: string)
    ensures ValidKey(key) <==>
            && key != "" && !('0' <= key[0] <= '9')
            && forall i :: 0 <= i < |key| ==>
                 'a' <= key[i] <= 'z' || 'A' <= key[i] <= 'Z' || '0' <= key[i] <= '9' || key[i] == '_'
  {
  }

  /** Nor does one whose key is not a name. */
  lemma BadKeyIsSkipped(vars: Vars, key: string, after: string, env: Vars)
    requires key != "" && TrimSpace(key) == key && '=' !in key && key[0] != '#' && !ValidKey(key)
    requires !(EXPORT <= Assignment(key, after))
    ensures WithLine(vars, Assignment(key, after), env) == vars
  {
    assert Assignment(key, after)[0] == key[0];
    TrimRightEnds(TrimLeft(key));
    TrimLeftEnds(key);
    CutJoined(key, '=', after);
  }

  /** Lines may end in a carriage return and a newline. */
  lemma CarriageReturnGoes(line: string, rest: string)
    requires '\n' !in line && Fits(line + ['\r'])
    ensures ScanLines(line + ['\r'] + ['\n'] + rest) == [line] + ScanLines(rest)
  {
    var l := line + ['\r'];
    assert '\n' !in l;
    ScanOne(l, rest);
  }
}
