/** The parser of `git status --porcelain -z` (internal/gitx/gitx.go). */
module Porcelain {
  import opened Prelude
  import opened Text

  const NUL := '\0'

  datatype Kind = Modified | Deleted | Added

  datatype StageRow = StageRow(kind: Kind, path: string, expandDir: bool)

  // ----------------------------------------------------------- what git prints

  /** One status record; a rename or copy carries the path it came from. */
  datatype Status = Status(x: char, y: char, path: string, origin: Option<string>)

  predicate Moves(x: char, y: char) {
    x == 'R' || x == 'C' || y == 'R' || y == 'C'
  }

  predicate Printable(s: Status) {
    && s.x != NUL && s.y != NUL && s.path != "" && NUL !in s.path
    && (s.origin.Some? <==> Moves(s.x, s.y))
    && (s.origin.Some? ==> NUL !in s.origin.value)
  }

  ghost predicate AllPrintable(ss: seq<Status>) {
    forall i :: 0 <= i < |ss| ==> Printable(ss[i])
  }

  /** The NUL-terminated entries of one record. */
  function Entries(s: Status): seq<string> {
    [[s.x, s.y, ' '] + s.path] + if s.origin.Some? then [s.origin.value] else []
  }

  function AllEntries(ss: seq<Status>): seq<string> {
    if ss == [] then [] else Entries(ss[0]) + AllEntries(ss[1..])
  }

  function Printed(entries: seq<string>): string {
    if entries == [] then "" else entries[0] + [NUL] + Printed(entries[1..])
  }

  /** The row the stager should offer for a record, if any: untracked paths and
      worktree deletions and modifications. */
  function RowFor(s: Status): seq<StageRow> {
    if s.x == '?' && s.y == '?' then [StageRow(Added, s.path, s.path != "" && s.path[|s.path| - 1] == '/')]
    else if s.y == 'D' then [StageRow(Deleted, s.path, false)]
    else if s.y == 'M' then [StageRow(Modified, s.path, false)]
    else []
  }

  function ExpectedRows(ss: seq<Status>): seq<StageRow> {
    if ss == [] then [] else RowFor(ss[0]) + ExpectedRows(ss[1..])
  }

  // ---------------------------------------------------------------- the parser

  function RowOf(e: string): seq<StageRow>
    requires |e| >= 4
  {
    var xy, path := e[..2], e[3..];
    if xy == "??" then [StageRow(Added, path, path[|path| - 1] == '/')]
    else if xy[1] == 'D' then [StageRow(Deleted, path, false)]
    else if xy[1] == 'M' then [StageRow(Modified, path, false)]
    else []
  }

  /** The rows of the entries from `i` on. */
  function RowsFrom(entries: seq<string>, i: nat): seq<StageRow>
    decreases |entries| - i
  {
    if i >= |entries| then []
    else if |entries[i]| < 4 then RowsFrom(entries, i + 1)
    else RowOf(entries[i]) + RowsFrom(entries, if Moves(entries[i][0], entries[i][1]) then i + 2 else i + 1)
  }

  function TrimNul(s: string): string {
    if s != "" && s[|s| - 1] == NUL then s[..|s| - 1] else s
  }

  method StageRows(porcelainZ: string) returns (rows: seq<StageRow>)
    ensures rows == RowsFrom(Split(TrimNul(porcelainZ), NUL), 0)
  {
    var entries := Split(TrimNul(porcelainZ), NUL);
    rows := EntryRows(entries);
  }

  method EntryRows(entries: seq<string>) returns (rows: seq<StageRow>)
    ensures rows == RowsFrom(entries, 0)
  {
    rows := [];
    var i := 0;
    while i < |entries|
      invariant 0 <= i
      invariant RowsFrom(entries, 0) == rows + RowsFrom(entries, i)
      decreases |entries| - i
    {
      var e := entries[i];
      if |e| < 4 {
        i := i + 1;
        continue;
      }
      var xy, path := e[..2], e[3..];
      if 'R' in xy || 'C' in xy {
        i := i + 1;
      }
      ghost var before := rows;
      if xy == "??" {
        rows := rows + [StageRow(Added, path, path[|path| - 1] == '/')];
      } else if xy[1] == 'D' {
        rows := rows + [StageRow(Deleted, path, false)];
      } else if xy[1] == 'M' {
        rows := rows + [StageRow(Modified, path, false)];
      }
      i := i + 1;
      assert rows == before + RowOf(e);
      assert before + (RowOf(e) + RowsFrom(entries, i)) == before + RowOf(e) + RowsFrom(entries, i);
    }
  }

  // ---------------------------------------------------------------- round trip

  lemma {:induction false} PrintedIsJoin(entries: seq<string>)
    requires entries != []
    ensures Printed(entries) == Join(entries, [NUL]) + [NUL]
  {
    if |entries| == 1 {
      assert Printed(entries[1..]) == "";
    } else {
      PrintedIsJoin(entries[1..]);
      assert entries[0] + [NUL] + (Join(entries[1..], [NUL]) + [NUL])
          == (entries[0] + [NUL] + Join(entries[1..], [NUL])) + [NUL];
    }
  }

  lemma {:induction false} EntriesAreFree(ss: seq<Status>)
    requires AllPrintable(ss)
    ensures forall i :: 0 <= i < |AllEntries(ss)| ==> NUL !in AllEntries(ss)[i]
  {
    if ss != [] {
      EntriesAreFree(ss[1..]);
    }
  }

  lemma RecordRow(s: Status)
    requires Printable(s)
    ensures |Entries(s)[0]| >= 4 && RowOf(Entries(s)[0]) == RowFor(s)
    ensures Moves(Entries(s)[0][0], Entries(s)[0][1]) <==> s.origin.Some?
  {
    var e := Entries(s)[0];
    assert e[..2] == [s.x, s.y] && e[3..] == s.path;
  }

  /** At a record the parser takes its row and steps over its origin. */
  lemma RecordIsRead(all: seq<string>, i: nat, s: Status)
    requires Printable(s) && i < |all| && all[i] == Entries(s)[0]
    ensures RowsFrom(all, i) == RowFor(s) + RowsFrom(all, i + |Entries(s)|)
  {
    RecordRow(s);
  }

  lemma {:induction false} RowsReadBack(done: seq<string>, ss: seq<Status>)
    requires AllPrintable(ss)
    ensures RowsFrom(done + AllEntries(ss), |done|) == ExpectedRows(ss)
    decreases |ss|
  {
    if ss != [] {
      var all := done + AllEntries(ss);
      assert all == (done + Entries(ss[0])) + AllEntries(ss[1..]);
      assert all[|done|] == Entries(ss[0])[0];
      RecordIsRead(all, |done|, ss[0]);
      RowsReadBack(done + Entries(ss[0]), ss[1..]);
    }
  }

  /** Printing any list of records in the -z form and parsing it gives exactly the
      expected rows in order: an origin is never read as a record. */
  lemma PorcelainRoundTrip(ss: seq<Status>)
    requires AllPrintable(ss)
    ensures RowsFrom(Split(TrimNul(Printed(AllEntries(ss))), NUL), 0) == ExpectedRows(ss)
  {
    var entries := AllEntries(ss);
    if ss == [] {
      CutAbsent("", NUL);
      assert Split("", NUL) == [""];
    } else {
      PrintedIsJoin(entries);
      EntriesAreFree(ss);
      var text := Printed(entries);
      assert text[|text| - 1] == NUL && TrimNul(text) == Join(entries, [NUL]);
      SplitJoined(entries, NUL);
      RowsReadBack([], ss);
      assert [] + entries == entries;
    }
  }
}
