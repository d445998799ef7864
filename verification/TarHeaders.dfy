/** What the archive reader takes for a header, byte by byte
    (composer/Bootstrap.php): the checksum, the octal fields and the NUL-padded
    ones, said of the 512 bytes and not of the code that reads them. */
module TarHeaders {
  import opened Prelude
  import opened TarReader

  // ----------------------------------------------------------------- octal fields

  function Pow8(w: nat): nat {
    if w == 0 then 1 else 8 * Pow8(w - 1)
  }

  ghost predicate AllBlank(s: Bytes) {
    forall i :: 0 <= i < |s| ==> s[i] == 0 || s[i] == 32
  }

  ghost predicate AllOctal(s: Bytes) {
    forall i :: 0 <= i < |s| ==> 48 <= s[i] <= 55
  }

  /** The number some octal digits stand for, each digit at its place. */
  ghost function PlaceValue(s: Bytes): nat
    requires AllOctal(s)
  {
    if s == [] then 0 else
      assert 48 <= s[0] <= 55;
      (s[0] as int - 48) * Pow8(|s| - 1) + PlaceValue(s[1..])
  }

  ghost predicate OctalAt(f: Bytes, a: nat, b: nat, n: nat) {
    && a < b <= |f| && AllBlank(f[..a]) && AllOctal(f[a..b]) && AllBlank(f[b..])
    && PlaceValue(f[a..b]) == n
  }

  /** The field is blanks, at least one octal digit, and blanks, and says `n`. */
  ghost predicate OctalField(f: Bytes, n: nat) {
    exists a: nat, b: nat :: OctalAt(f, a, b, n)
  }

  lemma {:induction false} TrimLeftOver(blanks: Bytes, rest: Bytes)
    requires AllBlank(blanks) && rest != [] && !Blank(rest[0])
    ensures TrimBlanksLeft(blanks + rest) == rest
  {
    if blanks == [] {
      assert blanks + rest == rest;
    } else {
      assert (blanks + rest)[1..] == blanks[1..] + rest;
      TrimLeftOver(blanks[1..], rest);
    }
  }

  lemma {:induction false} TrimRightOver(s: Bytes, blanks: Bytes)
    requires s != [] && !Blank(s[|s| - 1]) && AllBlank(blanks)
    ensures TrimBlanksRight(s + blanks) == s
  {
    if blanks == [] {
      assert s + blanks == s;
    } else {
      assert (s + blanks)[..|s + blanks| - 1] == s + blanks[..|blanks| - 1];
      TrimRightOver(s, blanks[..|blanks| - 1]);
    }
  }

  lemma {:induction false} TrimLeftShape(s: Bytes) returns (a: nat)
    ensures a <= |s| && AllBlank(s[..a]) && TrimBlanksLeft(s) == s[a..]
  {
    if s != [] && Blank(s[0]) {
      a := TrimLeftShape(s[1..]);
      a := a + 1;
      assert s[..a] == [s[0]] + s[1..][..a - 1] && s[1..][a - 1..] == s[a..];
    } else {
      a := 0;
      assert s[0..] == s;
    }
  }

  lemma {:induction false} TrimRightShape(s: Bytes) returns (b: nat)
    ensures b <= |s| && AllBlank(s[b..]) && TrimBlanksRight(s) == s[..b]
  {
    if s != [] && Blank(s[|s| - 1]) {
      var front := s[..|s| - 1];
      b := TrimRightShape(front);
      assert s[b..] == front[b..] + [s[|s| - 1]] && front[..b] == s[..b];
    } else {
      b := |s|;
      assert s[..|s|] == s;
    }
  }

  /** One more digit moves the others up by one place. */
  lemma MovedUp(first: nat, power: nat, rest: nat, digit: nat)
    ensures first * (8 * power) + (8 * rest + digit) == 8 * (first * power + rest) + digit
  {
  }

  lemma PlaceValueFirst(s: Bytes)
    requires AllOctal(s) && s != []
    ensures 48 <= s[0] <= 55 && AllOctal(s[1..])
    ensures PlaceValue(s) == (s[0] as int - 48) * Pow8(|s| - 1) + PlaceValue(s[1..])
  {
  }

  lemma OctalSnoc(s: Bytes, d: Byte)
    requires AllOctal(s) && 48 <= d <= 55
    ensures AllOctal(s + [d])
  {
  }

  lemma {:induction false} PlaceValueSnoc(s: Bytes, d: Byte)
    requires AllOctal(s) && 48 <= d <= 55
    ensures AllOctal(s + [d]) && PlaceValue(s + [d]) == 8 * PlaceValue(s) + (d as int - 48)
  {
    OctalSnoc(s, d);
    var digit := d as int - 48;
    if s == [] {
      assert s + [d] == [d] && [d][1..] == [];
      PlaceValueFirst([d]);
      assert Pow8(0) == 1 && PlaceValue([]) == 0;
    } else {
      PlaceValueFirst(s);
      PlaceValueFirst(s + [d]);
      assert (s + [d])[1..] == s[1..] + [d];
      PlaceValueSnoc(s[1..], d);
      MovedUp(s[0] as int - 48, Pow8(|s| - 1), PlaceValue(s[1..]), digit);
    }
  }

  lemma {:induction false} ValueIsPlaceValue(s: Bytes)
    requires AllOctal(s)
    ensures OctalValue(s) == PlaceValue(s)
  {
    if s != [] {
      var front, d := s[..|s| - 1], s[|s| - 1];
      assert s == front + [d];
      assert 48 <= d <= 55 && forall i :: 0 <= i < |front| ==> 48 <= front[i] <= 55;
      PlaceValueSnoc(front, d);
      ValueIsPlaceValue(front);
    }
  }

  lemma OctalReads(f: Bytes, a: nat, b: nat, n: nat)
    requires OctalAt(f, a, b, n)
    ensures Octal(f) == Some(n)
  {
    var digits := f[a..b];
    assert f == f[..a] + (digits + f[b..]);
    assert (digits + f[b..])[0] == digits[0] && 48 <= digits[0] && 48 <= digits[|digits| - 1];
    TrimLeftOver(f[..a], digits + f[b..]);
    TrimRightOver(digits, f[b..]);
    ValueIsPlaceValue(digits);
  }

  lemma OctalMeans(f: Bytes)
    requires Octal(f).Some?
    ensures OctalField(f, Octal(f).value)
  {
    var a := TrimLeftShape(f);
    var rest := f[a..];
    var w := TrimRightShape(rest);
    var b := a + w;
    assert rest[..w] == f[a..b] && rest[w..] == f[b..];
    ValueIsPlaceValue(f[a..b]);
    assert OctalAt(f, a, b, Octal(f).value);
  }

  /** octal() reads exactly the octal fields, and reads their number. */
  lemma OctalExactly(f: Bytes, n: nat)
    ensures Octal(f) == Some(n) <==> OctalField(f, n)
  {
    if a: nat, b: nat :| OctalAt(f, a, b, n) {
      OctalReads(f, a, b, n);
    }
    if Octal(f) == Some(n) {
      OctalMeans(f);
    }
  }

  // ---------------------------------------------------------------- the checksum

  ghost function Total(s: Bytes): nat {
    if s == [] then 0 else s[0] as int + Total(s[1..])
  }

  lemma {:induction false} TotalOn(a: Bytes, b: Bytes)
    ensures Total(a + b) == Total(a) + Total(b)
  {
    if a == [] {
      assert a + b == b;
    } else {
      assert (a + b)[1..] == a[1..] + b;
      TotalOn(a[1..], b);
    }
  }

  lemma {:induction false} ByteSumIsTotal(s: Bytes)
    ensures ByteSum(s) == Total(s)
  {
    if s != [] {
      var front, last := s[..|s| - 1], s[|s| - 1];
      ByteSumIsTotal(front);
      assert s == front + [last];
      TotalOn(front, [last]);
      assert [last][1..] == [];
      assert Total([last]) == last as int;
    }
  }

  lemma {:induction false} TotalOfSpaces(n: nat)
    ensures Total(Repeat(SPACE, n)) == 32 * n
  {
    if n > 0 {
      assert Repeat(SPACE, n)[1..] == Repeat(SPACE, n - 1);
      TotalOfSpaces(n - 1);
    }
  }

  /** The sum of all bytes outside the checksum field, and 32 for each of its own. */
  ghost function HeaderSum(h: Bytes): nat
    requires |h| == 512
  {
    Total(h[..148]) + 8 * 32 + Total(h[156..])
  }

  lemma BlankedSum(h: Bytes)
    requires |h| == 512
    ensures ByteSum(Blanked(h)) == HeaderSum(h)
  {
    ByteSumIsTotal(Blanked(h));
    TotalOn(h[..148] + Repeat(SPACE, 8), h[156..]);
    TotalOn(h[..148], Repeat(SPACE, 8));
    TotalOfSpaces(8);
  }

  // ------------------------------------------------------------------- the names

  /** The field holds `s`, padded with NULs. */
  ghost predicate NulPadded(f: Bytes, s: Bytes) {
    && s <= f && (s != [] ==> s[|s| - 1] != 0)
    && forall i :: |s| <= i < |f| ==> f[i] == 0
  }

  lemma {:induction false} TrimNulsPadded(f: Bytes)
    ensures NulPadded(f, TrimNuls(f))
  {
    if f != [] && f[|f| - 1] == NUL {
      var front := f[..|f| - 1];
      TrimNulsPadded(front);
      forall i | |TrimNuls(f)| <= i < |f| ensures f[i] == 0 {
        assert i < |front| ==> front[i] == f[i];
      }
    }
  }

  lemma PaddedIsUnique(f: Bytes, s: Bytes, t: Bytes)
    requires NulPadded(f, s) && NulPadded(f, t)
    ensures s == t
  {
    assert s != [] ==> f[|s| - 1] == s[|s| - 1];
    assert t != [] ==> f[|t| - 1] == t[|t| - 1];
    assert s == f[..|s|] && t == f[..|t|];
  }

  lemma TrimNulsExactly(f: Bytes, s: Bytes)
    ensures TrimNuls(f) == s <==> NulPadded(f, s)
  {
    TrimNulsPadded(f);
    if NulPadded(f, s) {
      PaddedIsUnique(f, s, TrimNuls(f));
    }
  }

  // ------------------------------------------------------------------ the header

  /** The checksum field holds the header's sum, and the size field a number. */
  ghost predicate GoodChecksum(h: Bytes)
    requires |h| == 512
  {
    OctalField(h[148..156], HeaderSum(h))
  }

  /** The 512 bytes are a valid header that says all this. */
  ghost predicate HeaderSays(h: Bytes, name: Bytes, prefix: Bytes, kind: Byte, size: nat, link: Bytes)
    requires |h| == 512
  {
    && GoodChecksum(h) && OctalField(h[124..136], size)
    && NulPadded(h[0..100], name) && NulPadded(h[345..500], prefix)
    && h[156] == kind && NulPadded(h[157..257], link)
  }

  lemma FieldsAre(h: Bytes)
    requires |h| == 512
    ensures Field(h, 148, 8) == h[148..156] && Field(h, 124, 12) == h[124..136] && Field(h, 0, 100) == h[0..100]
    ensures Field(h, 345, 155) == h[345..500] && Field(h, 157, 100) == h[157..257]
  {
  }

  /** A block is read as a header exactly when its checksum field holds the sum of
      the other 504 bytes and eight spaces, and its size field a number. */
  lemma HeaderReadExactly(h: Bytes)
    requires |h| == 512
    ensures ParseHeader(h).Head? <==> GoodChecksum(h) && exists n :: OctalField(h[124..136], n)
    ensures ParseHeader(h) == Bad(BadChecksum) <==> !GoodChecksum(h) && exists n :: OctalField(h[148..156], n)
  {
    FieldsAre(h);
    BlankedSum(h);
    forall n: nat ensures Octal(h[148..156]) == Some(n) <==> OctalField(h[148..156], n) {
      OctalExactly(h[148..156], n);
    }
    forall n: nat ensures Octal(h[124..136]) == Some(n) <==> OctalField(h[124..136], n) {
      OctalExactly(h[124..136], n);
    }
  }

  /** And what the reader takes from it is what its bytes say. */
  lemma HeaderSaysExactly(h: Bytes, name: Bytes, prefix: Bytes, kind: Byte, size: nat, link: Bytes)
    requires |h| == 512
    ensures ParseHeader(h) == Head(name, prefix, kind, size, link)
       <==> HeaderSays(h, name, prefix, kind, size, link)
  {
    FieldsAre(h);
    BlankedSum(h);
    OctalExactly(h[148..156], HeaderSum(h));
    OctalExactly(h[124..136], size);
    TrimNulsExactly(h[0..100], name);
    TrimNulsExactly(h[345..500], prefix);
    TrimNulsExactly(h[157..257], link);
  }
}
