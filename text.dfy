/** String primitives shared by the models of monster-main.cc and parse_des.py:
    whitespace (as C's isspace and Python 2's `str.strip` and `\s` define it),
    substring search, joining and splitting, single-pass replacement and
    decimal rendering of integers. */
module Text {

  datatype Option<T> = None | Some(value: T)

  /** The six characters C's isspace, Python 2's `str.strip()` and the
      regular-expression class `\s` (without re.UNICODE) treat as whitespace. */
  predicate IsSpace(c: char) {
    c == ' ' || c == '\t' || c == '\n' || c == '\r' || c == '\U{0B}' || c == '\U{0C}'
  }

  predicate IsDigit(c: char) {
    '0' <= c <= '9'
  }

  predicate IsUpper(c: char) {
    'A' <= c <= 'Z'
  }

  /** Every character of `r` occurs somewhere in `s`. */
  ghost predicate CharsWithin(r: string, s: string) {
    forall i :: 0 <= i < |r| ==> r[i] in s
  }

  lemma CharsWithinTrans(a: string, b: string, c: string)
    requires CharsWithin(a, b) && CharsWithin(b, c)
    ensures CharsWithin(a, c)
  {
    forall i | 0 <= i < |a| ensures a[i] in c {
      var k :| 0 <= k < |b| && b[k] == a[i];
    }
  }

  ghost predicate NoUpper(s: string) {
    forall i :: 0 <= i < |s| ==> !IsUpper(s[i])
  }

  /** No whitespace character is directly followed by another one. */
  ghost predicate NoAdjacentSpaces(s: string) {
    forall i :: 0 <= i < |s| - 1 ==> !(IsSpace(s[i]) && IsSpace(s[i + 1]))
  }

  // ---------------------------------------------------------------------
  // Prefixes and substring search

  predicate StartsWith(s: string, p: string) {
    |p| <= |s| && s[..|p|] == p
  }

  predicate EndsWith(s: string, p: string) {
    |p| <= |s| && s[|s| - |p|..] == p
  }

  /** `p` occurs in `s` starting at index `j`. */
  predicate MatchAt(s: string, p: string, j: nat) {
    j + |p| <= |s| && s[j..j + |p|] == p
  }

  /** The first index at or after `from` where `p` occurs in `s`, as
      `std::string::find(p, from)` reports it for a nonempty `p`. */
  function FindFrom(s: string, p: string, from: nat): (r: Option<nat>)
    ensures r.Some? ==> from <= r.value && MatchAt(s, p, r.value)
    ensures r.Some? ==> forall j :: from <= j < r.value ==> !MatchAt(s, p, j)
    ensures r.None? ==> forall j :: from <= j ==> !MatchAt(s, p, j)
    decreases |s| - from
  {
    if from + |p| > |s| then None
    else if MatchAt(s, p, from) then Some(from)
    else FindFrom(s, p, from + 1)
  }

  /** `p` can only match where its first character does. */
  lemma MatchAtHead(s: string, p: string, j: nat)
    requires p != []
    ensures MatchAt(s, p, j) ==> j < |s| && s[j] == p[0]
  {
    if j + |p| <= |s| {
      assert s[j..j + |p|][0] == s[j];
    }
  }

  /** A pattern with a character that `s` lacks occurs nowhere in `s`. */
  lemma NoMatchWithoutChar(s: string, p: string, k: nat)
    requires k < |p| && p[k] !in s
    ensures forall j: nat :: !MatchAt(s, p, j)
  {
    forall j: nat ensures !MatchAt(s, p, j) {
      if j + |p| <= |s| {
        assert s[j..j + |p|][k] == s[j + k];
      }
    }
  }

  lemma MatchAtEnd(s: string, p: string)
    requires |p| <= |s|
    ensures MatchAt(s, p, |s| - |p|) <==> EndsWith(s, p)
  {
  }

  /** The first index at or after `from` holding `c`, as
      `std::string::find(c, from)` reports it. */
  function FindChar(s: string, c: char, from: nat): (r: Option<nat>)
    ensures r.Some? ==> from <= r.value < |s| && s[r.value] == c
    ensures r.Some? ==> forall j :: from <= j < r.value ==> s[j] != c
    ensures r.None? ==> forall j :: from <= j < |s| ==> s[j] != c
    decreases |s| - from
  {
    if from >= |s| then None
    else if s[from] == c then Some(from)
    else FindChar(s, c, from + 1)
  }

  /** Python's `p in s` for strings: `p` occurs somewhere in `s`. */
  function Contains(s: string, p: string): (b: bool)
    ensures b <==> exists j :: MatchAt(s, p, j)
  {
    FindFrom(s, p, 0).Some?
  }

  // ---------------------------------------------------------------------
  // Case

  function LowerChar(c: char): (d: char)
    ensures !IsUpper(d)
    ensures IsUpper(c) || d == c
  {
    if IsUpper(c) then (c as int + 32) as char else c
  }

  /** `lowercase(std::string&)`: ASCII upper-case letters become lower case. */
  function Lower(s: string): (r: string)
    ensures |r| == |s| && NoUpper(r)
    ensures forall i :: 0 <= i < |s| ==> r[i] == LowerChar(s[i])
  {
    seq(|s|, i requires 0 <= i < |s| => LowerChar(s[i]))
  }

  // ---------------------------------------------------------------------
  // Whitespace stripping (Python's `str.strip()`)

  /** Python's `str.strip()`: whitespace removed from both ends. */
  function Strip(s: string): (r: string)
    ensures |r| <= |s|
    ensures r == [] || (!IsSpace(r[0]) && !IsSpace(r[|r| - 1]))
    ensures CharsWithin(r, s)
    ensures NoAdjacentSpaces(s) ==> NoAdjacentSpaces(r)
    decreases |s|
  {
    if s == [] then s
    else if IsSpace(s[0]) then
      SliceWithin(s, 1, |s|);
      Strip(s[1..])
    else if IsSpace(s[|s| - 1]) then
      SliceWithin(s, 0, |s| - 1);
      Strip(s[..|s| - 1])
    else s
  }

  /** A slice has only characters of the whole, and keeps it free of
      adjacent whitespace. */
  lemma SliceWithin(s: string, i: nat, j: nat)
    requires i <= j <= |s|
    ensures forall x :: CharsWithin(x, s[i..j]) ==> CharsWithin(x, s)
    ensures NoAdjacentSpaces(s) ==> NoAdjacentSpaces(s[i..j])
  {
    var t := s[i..j];
    forall c | c in t ensures c in s {
      var m :| 0 <= m < |t| && t[m] == c;
      assert s[i + m] == c;
    }
    if NoAdjacentSpaces(s) {
      forall k | 0 <= k < j - i - 1 ensures !(IsSpace(s[i..j][k]) && IsSpace(s[i..j][k + 1])) {
        assert s[i..j][k] == s[i + k] && s[i..j][k + 1] == s[i + k + 1];
      }
    }
  }

  /** A string without surrounding whitespace is its own strip. */
  lemma StripStripped(s: string)
    requires s == [] || (!IsSpace(s[0]) && !IsSpace(s[|s| - 1]))
    ensures Strip(s) == s
  {
  }

  /** Only whitespace lies before position `i` and from position `j` on. */
  predicate SpaceOutside(s: string, i: nat, j: nat)
    requires i <= j <= |s|
  {
    (forall k :: 0 <= k < i ==> IsSpace(s[k])) && (forall k :: j <= k < |s| ==> IsSpace(s[k]))
  }

  /** What `Strip` returns is a slice of its input with only whitespace
      before and after it; together with the ends it has, it is what is
      left once the leading and trailing whitespace is removed. */
  lemma {:induction false} StripIsSlice(s: string)
    ensures exists i: nat, j: nat :: i <= j <= |s| && Strip(s) == s[i..j] && SpaceOutside(s, i, j)
    decreases |s|
  {
    if s == [] {
      assert Strip(s) == s[0..0] && SpaceOutside(s, 0, 0);
    } else if IsSpace(s[0]) {
      var t := s[1..];
      StripIsSlice(t);
      var i: nat, j: nat :| i <= j <= |t| && Strip(t) == t[i..j] && SpaceOutside(t, i, j);
      SpaceOutsideFront(s, i, j);
      assert Strip(s) == s[i + 1..j + 1];
    } else if IsSpace(s[|s| - 1]) {
      var t := s[..|s| - 1];
      StripIsSlice(t);
      var i: nat, j: nat :| i <= j <= |t| && Strip(t) == t[i..j] && SpaceOutside(t, i, j);
      SpaceOutsideBack(s, i, j);
      assert Strip(s) == s[i..j];
    } else {
      assert Strip(s) == s[0..|s|] && SpaceOutside(s, 0, |s|);
    }
  }

  /** A slice of `s[1..]` is a slice of `s`, one further on. */
  lemma SpaceOutsideFront(s: string, i: nat, j: nat)
    requires s != [] && IsSpace(s[0]) && i <= j <= |s| - 1 && SpaceOutside(s[1..], i, j)
    ensures s[1..][i..j] == s[i + 1..j + 1] && SpaceOutside(s, i + 1, j + 1)
  {
    var t := s[1..];
    forall k | 0 <= k < i + 1 ensures IsSpace(s[k]) {
      if k > 0 { assert s[k] == t[k - 1]; }
    }
    forall k | j + 1 <= k < |s| ensures IsSpace(s[k]) {
      assert s[k] == t[k - 1];
    }
  }

  /** A slice of all but the last character of `s` is a slice of `s`. */
  lemma SpaceOutsideBack(s: string, i: nat, j: nat)
    requires s != [] && IsSpace(s[|s| - 1]) && i <= j <= |s| - 1 && SpaceOutside(s[..|s| - 1], i, j)
    ensures s[..|s| - 1][i..j] == s[i..j] && SpaceOutside(s, i, j)
  {
    var t := s[..|s| - 1];
    forall k | 0 <= k < i ensures IsSpace(s[k]) {
      assert s[k] == t[k];
    }
    forall k | j <= k < |s| ensures IsSpace(s[k]) {
      if k < |t| { assert s[k] == t[k]; }
    }
  }

  // ---------------------------------------------------------------------
  // Joining and splitting

  /** `xs` joined with `sep` between consecutive elements. */
  function Join(xs: seq<string>, sep: string): string
  {
    if |xs| == 0 then ""
    else if |xs| == 1 then xs[0]
    else Join(xs[..|xs| - 1], sep) + sep + xs[|xs| - 1]
  }

  lemma {:induction false} JoinCons(x: string, xs: seq<string>, sep: string)
    ensures Join([x] + xs, sep) == if xs == [] then x else x + sep + Join(xs, sep)
    decreases |xs|
  {
    if |xs| > 1 {
      var ys := [x] + xs;
      assert ys[..|ys| - 1] == [x] + xs[..|xs| - 1];
      JoinCons(x, xs[..|xs| - 1], sep);
    } else if |xs| == 1 {
      assert ([x] + xs)[..1] == [x];
    }
  }

  /** An accumulated report section: empty while nothing was recorded,
      otherwise `prefix` followed by the pieces joined with `sep`. */
  function Section(prefix: string, sep: string, pieces: seq<string>): string
  {
    if pieces == [] then "" else prefix + Join(pieces, sep)
  }

  lemma SectionSnoc(prefix: string, sep: string, pieces: seq<string>, x: string)
    ensures Section(prefix, sep, pieces + [x])
         == (if pieces == [] then prefix + x else Section(prefix, sep, pieces) + sep + x)
  {
    JoinSnoc(pieces, x, sep);
    if pieces != [] {
      var j := Join(pieces, sep);
      assert prefix + (j + sep + x) == prefix + j + sep + x;
    }
  }

  /** Appending one more piece adds the separator only after a first one. */
  lemma JoinSnoc(xs: seq<string>, x: string, sep: string)
    ensures Join(xs + [x], sep) == if xs == [] then x else Join(xs, sep) + sep + x
  {
    assert (xs + [x])[..|xs|] == xs;
  }

  /** No piece is the empty string. */
  ghost predicate NonEmptyPieces(xs: seq<string>) {
    forall i :: 0 <= i < |xs| ==> xs[i] != ""
  }

  /** Joined nonempty pieces are empty only when there are none. */
  lemma JoinEmptyIff(xs: seq<string>, sep: string)
    requires NonEmptyPieces(xs)
    ensures Join(xs, sep) == "" <==> xs == []
  {
    if xs != [] {
      assert |Join(xs, sep)| >= |xs[|xs| - 1]|;
    }
  }

  /** With a nonempty prefix, a section is empty only when nothing was recorded. */
  lemma SectionEmptyIff(prefix: string, sep: string, pieces: seq<string>)
    requires prefix != ""
    ensures Section(prefix, sep, pieces) == "" <==> pieces == []
    ensures pieces != [] ==> StartsWith(Section(prefix, sep, pieces), prefix)
  {
  }

  /** Pieces appended one by one to an accumulator that writes `sep`
      before a piece only when it already holds something. */
  function Glue(xs: seq<string>, sep: string): string
  {
    if xs == [] then ""
    else
      var acc := Glue(xs[..|xs| - 1], sep);
      (if acc == "" then "" else acc + sep) + xs[|xs| - 1]
  }

  lemma GlueSnoc(xs: seq<string>, x: string, sep: string)
    ensures Glue(xs + [x], sep) == (if Glue(xs, sep) == "" then "" else Glue(xs, sep) + sep) + x
  {
    assert (xs + [x])[..|xs|] == xs;
  }

  /** When no piece is empty, the accumulator is the plain join. */
  lemma {:induction false} GlueJoin(xs: seq<string>, sep: string)
    requires NonEmptyPieces(xs)
    ensures Glue(xs, sep) == Join(xs, sep)
  {
    if xs != [] {
      var init := xs[..|xs| - 1];
      GlueJoin(init, sep);
      JoinEmptyIff(init, sep);
    }
  }

  /** Python's `s.split(c)` for a one-character separator. */
  function Split(s: string, c: char): (r: seq<string>)
    ensures |r| >= 1
    ensures forall i :: 0 <= i < |r| ==> c !in r[i]
  {
    if s == [] then [""]
    else
      var rest := Split(s[1..], c);
      if s[0] == c then [""] + rest else [[s[0]] + rest[0]] + rest[1..]
  }

  /** The number of occurrences of `c` in `s`. */
  function Count(s: string, c: char): nat
  {
    if s == [] then 0 else (if s[0] == c then 1 else 0) + Count(s[1..], c)
  }

  /** Splitting yields one more piece than there are separators. */
  lemma {:induction false} SplitCount(s: string, c: char)
    ensures |Split(s, c)| == Count(s, c) + 1
  {
    if s != [] {
      SplitCount(s[1..], c);
    }
  }

  /** Joining the pieces of a split with the separator restores the string. */
  lemma {:induction false} SplitJoin(s: string, c: char)
    ensures Join(Split(s, c), [c]) == s
  {
    if s != [] {
      SplitJoin(s[1..], c);
      SplitJoinStep(s[0], s[1..], Split(s[1..], c), c);
      assert [s[0]] + s[1..] == s;
    }
  }

  /** One character in front of a string whose pieces join back to it. */
  lemma SplitJoinStep(x: char, t: string, rest: seq<string>, c: char)
    requires |rest| >= 1 && Join(rest, [c]) == t
    ensures x == c ==> Join([""] + rest, [c]) == [x] + t
    ensures x != c ==> Join([[x] + rest[0]] + rest[1..], [c]) == [x] + t
  {
    if x == c {
      JoinCons("", rest, [c]);
      assert "" + [c] + t == [x] + t;
    } else {
      var r0, rs := rest[0], rest[1..];
      assert [r0] + rs == rest;
      JoinCons(r0, rs, [c]);
      JoinPrepend(x, r0, rs, [c]);
    }
  }

  /** A character put in front of the first piece lands in front of the
      joined string. */
  lemma JoinPrepend(x: char, r0: string, rs: seq<string>, sep: string)
    ensures Join([[x] + r0] + rs, sep) == [x] + Join([r0] + rs, sep)
  {
    JoinCons(r0, rs, sep);
    JoinCons([x] + r0, rs, sep);
    if rs != [] {
      var j := Join(rs, sep);
      assert ([x] + r0) + sep + j == [x] + (r0 + sep + j);
    }
  }

  /** A string without the separator splits into itself alone. */
  lemma {:induction false} SplitAbsent(s: string, c: char)
    requires c !in s
    ensures Split(s, c) == [s]
  {
    if s != [] {
      assert c !in s[1..];
      SplitAbsent(s[1..], c);
      assert [s[0]] + s[1..] == s;
    }
  }

  // ---------------------------------------------------------------------
  // Replacement

  /** Python's `s.replace(pat, rep)`: one left-to-right pass replacing
      non-overlapping occurrences of `pat`. */
  function ReplaceAll(s: string, pat: string, rep: string): string
    requires pat != []
    decreases |s|
  {
    if s == [] then []
    else if MatchAt(s, pat, 0) then rep + ReplaceAll(s[|pat|..], pat, rep)
    else [s[0]] + ReplaceAll(s[1..], pat, rep)
  }

  /** Deleting occurrences only ever removes characters. */
  lemma {:induction false} ReplaceAllDeletes(s: string, pat: string)
    requires pat != []
    ensures CharsWithin(ReplaceAll(s, pat, ""), s)
    decreases |s|
  {
    if s != [] {
      if MatchAt(s, pat, 0) {
        ReplaceAllDeletes(s[|pat|..], pat);
      } else {
        ReplaceAllDeletes(s[1..], pat);
      }
    }
  }

  /** A string in which `pat` never occurs is left unchanged. */
  lemma {:induction false} ReplaceAllAbsent(s: string, pat: string, rep: string)
    requires pat != []
    requires forall j :: !MatchAt(s, pat, j)
    ensures ReplaceAll(s, pat, rep) == s
    decreases |s|
  {
    if s != [] {
      assert !MatchAt(s, pat, 0);
      forall j: nat ensures !MatchAt(s[1..], pat, j) {
        assert !MatchAt(s, pat, j + 1);
        if j + |pat| <= |s| - 1 {
          assert s[1..][j..j + |pat|] == s[j + 1..j + 1 + |pat|];
        }
      }
      ReplaceAllAbsent(s[1..], pat, rep);
    }
  }

  /** `s` with every `a` replaced by `b`. */
  function ReplaceChar(s: string, a: char, b: char): (r: string)
    ensures |r| == |s|
    ensures forall i :: 0 <= i < |s| ==> r[i] == (if s[i] == a then b else s[i])
  {
    seq(|s|, i requires 0 <= i < |s| => if s[i] == a then b else s[i])
  }

  // ---------------------------------------------------------------------
  // Decimal rendering (`%d`, `%i`, `%ld`, `std::stringstream <<`, Python `%s`)

  function DigitChar(d: nat): (c: char)
    requires d < 10
    ensures IsDigit(c)
  {
    ('0' as int + d) as char
  }

  function DigitValue(c: char): nat
    requires IsDigit(c)
  {
    c as int - '0' as int
  }

  ghost predicate AllDigits(s: string) {
    forall i :: 0 <= i < |s| ==> IsDigit(s[i])
  }

  function NatToString(n: nat): (r: string)
    ensures |r| >= 1 && AllDigits(r)
  {
    if n < 10 then [DigitChar(n)] else NatToString(n / 10) + [DigitChar(n % 10)]
  }

  /** The decimal value of a string of digits. */
  function ParseNat(s: string): nat
    requires AllDigits(s)
  {
    if s == [] then 0 else ParseNat(s[..|s| - 1]) * 10 + DigitValue(s[|s| - 1])
  }

  /** Reading back a rendered number gives the number. */
  lemma {:induction false} ParseNatToString(n: nat)
    ensures ParseNat(NatToString(n)) == n
  {
    var s := NatToString(n);
    if n >= 10 {
      ParseNatToString(n / 10);
      assert s[..|s| - 1] == NatToString(n / 10);
    }
  }

  /** `%d` of a C `int`: a minus sign for negative values, then the digits. */
  function IntToString(i: int): (r: string)
    ensures i >= 0 ==> r == NatToString(i)
    ensures i < 0 ==> r == "-" + NatToString(-i)
  {
    if i < 0 then "-" + NatToString(-i) else NatToString(i)
  }

  lemma NatToStringHasNoMinus(n: nat)
    ensures '-' !in NatToString(n)
  {
    var s := NatToString(n);
    forall i | 0 <= i < |s| ensures s[i] != '-' {
      assert IsDigit(s[i]);
    }
  }

  /** Distinct numbers render differently. */
  lemma NatToStringInjective(m: nat, n: nat)
    requires NatToString(m) == NatToString(n)
    ensures m == n
  {
    ParseNatToString(m);
    ParseNatToString(n);
  }

  function Abs(a: int): nat {
    if a < 0 then -a else a
  }

  /** Truncating division of C and C++ (`/` rounds toward zero). */
  function TruncDiv(a: int, b: int): (q: int)
    requires b > 0
    ensures (a >= 0 ==> q >= 0) && (a <= 0 ==> q <= 0)
    ensures Abs(q) == Abs(a) / b
  {
    if a >= 0 then a / b else -((-a) / b)
  }
}
