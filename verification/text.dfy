/** The parts of Python's `str` API that the trip planner relies on:
    `isspace`/`strip`, ASCII `lower`, `split` on one character, `join`, and
    the position of the last occurrence of a character (what `rsplit(c, 1)`
    cuts at). Strings are sequences of Unicode code points, as in Python 3. */
module Text {
  import opened Wrappers

  /** The code points for which Python's `str.isspace()` holds: the
      characters that `str.strip()` with no argument removes. */
  const SpaceChars: set<char> := {
    '\t', '\n', '\U{0B}', '\U{0C}', '\r', '\U{1C}', '\U{1D}', '\U{1E}', '\U{1F}', ' ',
    '\U{85}', '\U{A0}', '\U{1680}',
    '\U{2000}', '\U{2001}', '\U{2002}', '\U{2003}', '\U{2004}', '\U{2005}',
    '\U{2006}', '\U{2007}', '\U{2008}', '\U{2009}', '\U{200A}',
    '\U{2028}', '\U{2029}', '\U{202F}', '\U{205F}', '\U{3000}'
  }

  predicate IsSpace(c: char) {
    c in SpaceChars
  }

  /** Every character of `s[lo..hi]` is whitespace. */
  predicate SpaceBetween(s: string, lo: int, hi: int)
    requires 0 <= lo && hi <= |s|
  {
    forall k :: lo <= k < hi ==> IsSpace(s[k])
  }

  /** Neither end of `s` is whitespace. */
  predicate Stripped(s: string) {
    |s| == 0 || (!IsSpace(s[0]) && !IsSpace(s[|s| - 1]))
  }

  /** `t` is what remains of `s` after cutting `s[..i]` and `s[i + |t|..]`,
      both of which are whitespace only. */
  predicate TrimAt(t: string, s: string, i: nat) {
    && i + |t| <= |s|
    && t == s[i..i + |t|]
    && SpaceBetween(s, 0, i)
    && SpaceBetween(s, i + |t|, |s|)
  }

  /** Number of whitespace characters at the start of `s`. */
  function LeadingSpaces(s: string): (n: nat)
    ensures n <= |s|
  {
    if |s| > 0 && IsSpace(s[0]) then 1 + LeadingSpaces(s[1..]) else 0
  }

  /** Number of whitespace characters at the end of `s`. */
  function TrailingSpaces(s: string): (n: nat)
    ensures n <= |s|
  {
    if |s| > 0 && IsSpace(s[|s| - 1]) then 1 + TrailingSpaces(s[..|s| - 1]) else 0
  }

  /** The leading run is all whitespace and stops before a non-space. */
  lemma {:induction false} LeadingSpacesMaximal(s: string)
    ensures SpaceBetween(s, 0, LeadingSpaces(s))
    ensures LeadingSpaces(s) == |s| || !IsSpace(s[LeadingSpaces(s)])
  {
    if |s| > 0 && IsSpace(s[0]) {
      LeadingSpacesMaximal(s[1..]);
      forall k | 1 <= k < LeadingSpaces(s) ensures IsSpace(s[k]) {
        assert s[k] == s[1..][k - 1];
      }
    }
  }

  /** The trailing run is all whitespace and stops after a non-space. */
  lemma {:induction false} TrailingSpacesMaximal(s: string)
    ensures SpaceBetween(s, |s| - TrailingSpaces(s), |s|)
    ensures TrailingSpaces(s) == |s| || !IsSpace(s[|s| - TrailingSpaces(s) - 1])
  {
    if |s| > 0 && IsSpace(s[|s| - 1]) {
      TrailingSpacesMaximal(s[..|s| - 1]);
    }
  }

  /** `s` without its leading whitespace run. */
  function StripLeft(s: string): string {
    s[LeadingSpaces(s)..]
  }

  /** `s` without its trailing whitespace run. */
  function StripRight(s: string): string {
    s[..|s| - TrailingSpaces(s)]
  }


  /** Whitespace found in a suffix of `s` is whitespace of `s`. */
  lemma SpaceInSuffix(s: string, i: nat, lo: int, hi: int)
    requires i <= |s| && 0 <= lo && hi <= |s| - i
    requires SpaceBetween(s[i..], lo, hi)
    ensures SpaceBetween(s, i + lo, i + hi)
  {
    forall m | i + lo <= m < i + hi ensures IsSpace(s[m]) {
      assert s[m] == s[i..][m - i];
    }
  }

  /** Neither end of `s` with both whitespace runs removed is whitespace. */
  lemma StripIsStripped(s: string)
    ensures Stripped(StripRight(StripLeft(s)))
  {
    var i := LeadingSpaces(s);
    var l := s[i..];
    var j := TrailingSpaces(l);
    LeadingSpacesMaximal(s);
    TrailingSpacesMaximal(l);
    var r := l[..|l| - j];
    if |r| > 0 {
      assert r[0] == s[i];
      assert r[|r| - 1] == l[|l| - j - 1];
    }
  }

  /** Removing both whitespace runs leaves a piece of `s`, and what was cut
      off on both sides is whitespace only. */
  lemma StripCutsSpace(s: string)
    ensures TrimAt(StripRight(StripLeft(s)), s, LeadingSpaces(s))
  {
    var i := LeadingSpaces(s);
    var l := s[i..];
    var j := TrailingSpaces(l);
    LeadingSpacesMaximal(s);
    TrailingSpacesMaximal(l);
    var r := l[..|l| - j];
    assert r == s[i..i + |r|];
    SpaceInSuffix(s, i, |l| - j, |l|);
  }

  /** `str.strip()`: a piece of `s` with no whitespace at either end, and
      what was cut off on both sides is whitespace only. */
  function Strip(s: string): (r: string)
    ensures Stripped(r)
    ensures TrimAt(r, s, LeadingSpaces(s))
  {
    StripIsStripped(s);
    StripCutsSpace(s);
    StripRight(StripLeft(s))
  }

  /** Strip removes exactly the surrounding whitespace: any piece of `s` with
      no whitespace at either end whose cut-off sides are whitespace is
      `Strip(s)`. */
  lemma StripUnique(t: string, s: string, i: nat)
    requires TrimAt(t, s, i) && Stripped(t)
    ensures Strip(s) == t
  {
    var k := LeadingSpaces(s);
    var r := Strip(s);
    if |t| == 0 {
      assert |r| == 0;
    } else {
      assert s[i] == t[0];
      assert k == i;
      assert |r| == |t|;
    }
  }

  /** A string with no whitespace at either end is its own strip. */
  lemma StripFixed(t: string)
    requires Stripped(t)
    ensures Strip(t) == t
  {
    assert TrimAt(t, t, 0) by {
      assert t[0..0 + |t|] == t;
    }
    StripUnique(t, t, 0);
  }

  /** Stripping twice is stripping once. */
  lemma StripIdempotent(s: string)
    ensures Strip(Strip(s)) == Strip(s)
  {
    StripFixed(Strip(s));
  }

  /** Python's `str.lower()` restricted to ASCII letters: the result is never
      an upper-case ASCII letter, and only upper-case ASCII letters change,
      each to the letter 32 code points above it. */
  function LowerChar(c: char): (d: char)
    ensures !('A' <= d <= 'Z')
    ensures d != c ==> 'A' <= c <= 'Z' && d as int == c as int + 32
    ensures d == '.' <==> c == '.'
  {
    if 'A' <= c <= 'Z' then (c as int + 32) as char else c
  }

  /** `s.lower()`, character by character. */
  function Lower(s: string): (r: string)
    ensures |r| == |s|
    ensures forall k :: 0 <= k < |s| ==> r[k] == LowerChar(s[k])
  {
    seq(|s|, k requires 0 <= k < |s| => LowerChar(s[k]))
  }

  /** Index of the last occurrence of `c` in `s`, or None (`str.rfind` = -1). */
  function LastIndexOf(s: string, c: char): (r: Option<nat>)
    ensures r.None? ==> c !in s
    ensures r.Some? ==> r.value < |s| && s[r.value] == c && c !in s[r.value + 1..]
  {
    if |s| == 0 then None
    else if s[|s| - 1] == c then Some(|s| - 1)
    else
      var r := LastIndexOf(s[..|s| - 1], c);
      assert r.Some? ==> s[r.value + 1..] == s[..|s| - 1][r.value + 1..] + [s[|s| - 1]];
      r
  }

  /** Number of occurrences of `c` in `s`. */
  function Count(s: string, c: char): nat {
    if |s| == 0 then 0 else (if s[0] == c then 1 else 0) + Count(s[1..], c)
  }

  /** Python's `s.split(c)` for a one-character separator: the maximal pieces
      between occurrences of `c`, always at least one. */
  function Split(s: string, c: char): (r: seq<string>)
    ensures |r| >= 1
    ensures forall k :: 0 <= k < |r| ==> c !in r[k]
  {
    if |s| == 0 then [[]]
    else
      var rest := Split(s[1..], c);
      if s[0] == c then [[]] + rest
      else [[s[0]] + rest[0]] + rest[1..]
  }

  /** Total number of characters in `pieces`. */
  function TotalLength(pieces: seq<string>): nat {
    if |pieces| == 0 then 0 else |pieces[0]| + TotalLength(pieces[1..])
  }

  /** Python's `sep.join(pieces)`: the pieces in order with one `sep` between
      neighbours, so it ends right after the last piece, which starts behind
      all earlier pieces and `|pieces| - 1` separators. */
  function Join(pieces: seq<string>, sep: string): (r: string)
    ensures |pieces| == 0 ==> r == []
    ensures |pieces| >= 1 ==> |r| == Offset(pieces, sep, |pieces| - 1) + |pieces[|pieces| - 1]|
    ensures |pieces| >= 1 ==> r[..|pieces[0]|] == pieces[0]
  {
    if |pieces| == 0 then []
    else if |pieces| == 1 then
      assert pieces[..0] == [];
      pieces[0]
    else
      OffsetStep(pieces, sep, |pieces| - 1);
      pieces[0] + sep + Join(pieces[1..], sep)
  }

  /** Where piece `k` starts in `Join(pieces, sep)`: after the `k` earlier
      pieces and their `k` separators. */
  function Offset(pieces: seq<string>, sep: string, k: int): nat
    requires 0 <= k <= |pieces|
  {
    TotalLength(pieces[..k]) + k * |sep|
  }

  /** Characters from position `|a|` on in `a + b` are those of `b`. */
  lemma SliceAfter(a: string, b: string, lo: int, hi: int)
    requires 0 <= lo <= hi <= |b|
    ensures (a + b)[|a| + lo..|a| + hi] == b[lo..hi]
  {
  }

  /** Piece `k > 0` of a join starts behind the first piece and one
      separator, at its own offset among the remaining pieces. */
  lemma OffsetStep(pieces: seq<string>, sep: string, k: int)
    requires 1 <= k < |pieces|
    ensures Offset(pieces, sep, k) == |pieces[0] + sep| + Offset(pieces[1..], sep, k - 1)
  {
    assert pieces[..k][1..] == pieces[1..][..k - 1];
    assert k * |sep| == |sep| + (k - 1) * |sep|;
  }

  /** Piece `k` of a join sits at `Offset(pieces, sep, k)`. */
  lemma {:induction false} JoinPieceAt(pieces: seq<string>, sep: string, k: int)
    requires 0 <= k < |pieces|
    ensures Offset(pieces, sep, k) + |pieces[k]| <= |Join(pieces, sep)|
    ensures Join(pieces, sep)[Offset(pieces, sep, k)..Offset(pieces, sep, k) + |pieces[k]|] == pieces[k]
  {
    if k == 0 {
      assert pieces[..0] == [];
    } else {
      var rest := pieces[1..];
      JoinPieceAt(rest, sep, k - 1);
      OffsetStep(pieces, sep, k);
      var o := Offset(rest, sep, k - 1);
      assert rest[k - 1] == pieces[k];
      SliceAfter(pieces[0] + sep, Join(rest, sep), o, o + |pieces[k]|);
    }
  }

  /** Every piece of a join after the first is preceded by one `sep`. */
  lemma {:induction false} JoinSepBefore(pieces: seq<string>, sep: string, k: int)
    requires 1 <= k < |pieces|
    ensures Offset(pieces, sep, k) <= |Join(pieces, sep)|
    ensures Offset(pieces, sep, k) >= |sep|
    ensures Join(pieces, sep)[Offset(pieces, sep, k) - |sep|..Offset(pieces, sep, k)] == sep
  {
    var rest := pieces[1..];
    var a := pieces[0] + sep;
    OffsetStep(pieces, sep, k);
    JoinPieceAt(rest, sep, k - 1);
    var o := Offset(rest, sep, k - 1);
    if k == 1 {
      assert o == 0 by { assert rest[..0] == []; }
      assert Join(pieces, sep)[|pieces[0]|..|a|] == sep;
    } else {
      JoinSepBefore(rest, sep, k - 1);
      SliceAfter(a, Join(rest, sep), o - |sep|, o);
    }
  }

  /** `s.split(c)` yields one more piece than `s` has occurrences of `c`. */
  lemma {:induction false} SplitCount(s: string, c: char)
    ensures |Split(s, c)| == Count(s, c) + 1
  {
    if |s| > 0 {
      SplitCount(s[1..], c);
    }
  }

  lemma JoinCons(a: string, rest: seq<string>, sep: string)
    requires |rest| >= 1
    ensures Join([a] + rest, sep) == a + sep + Join(rest, sep)
  {
    assert ([a] + rest)[1..] == rest;
  }

  /** Splitting then joining with the same separator gives back the input. */
  lemma {:induction false} JoinSplit(s: string, c: char)
    ensures Join(Split(s, c), [c]) == s
  {
    if |s| > 0 {
      var rest := Split(s[1..], c);
      JoinSplit(s[1..], c);
      if s[0] == c {
        JoinCons([], rest, [c]);
        assert s == [c] + s[1..];
      } else if |rest| == 1 {
        assert s == [s[0]] + s[1..];
      } else {
        JoinCons([s[0]] + rest[0], rest[1..], [c]);
        assert rest == [rest[0]] + rest[1..];
        JoinCons(rest[0], rest[1..], [c]);
        assert s == [s[0]] + s[1..];
      }
    }
  }

  /** A separator-free prefix glues onto the first piece of the split. */
  lemma {:induction false} SplitPrefix(x: string, t: string, c: char)
    requires c !in x
    ensures Split(x + t, c) == [x + Split(t, c)[0]] + Split(t, c)[1..]
  {
    var r := Split(t, c);
    if |x| > 0 {
      assert (x + t)[0] == x[0];
      assert (x + t)[1..] == x[1..] + t;
      SplitPrefix(x[1..], t, c);
      var rest := Split(x[1..] + t, c);
      assert rest[0] == x[1..] + r[0];
      assert rest[1..] == r[1..];
      assert [x[0]] + rest[0] == x + r[0];
    } else {
      assert x + t == t;
      assert x + r[0] == r[0];
      assert r == [r[0]] + r[1..];
    }
  }

  /** Joining separator-free pieces and splitting again gives back the pieces. */
  lemma {:induction false} SplitJoin(pieces: seq<string>, c: char)
    requires |pieces| >= 1
    requires forall k :: 0 <= k < |pieces| ==> c !in pieces[k]
    ensures Split(Join(pieces, [c]), c) == pieces
  {
    if |pieces| == 1 {
      SplitPrefix(pieces[0], [], c);
      assert pieces[0] + [] == pieces[0];
    } else {
      var y := Join(pieces[1..], [c]);
      SplitJoin(pieces[1..], c);
      assert Join(pieces, [c]) == pieces[0] + ([c] + y);
      SplitPrefix(pieces[0], [c] + y, c);
      assert ([c] + y)[0] == c;
      assert ([c] + y)[1..] == y;
      assert Split([c] + y, c) == [[]] + Split(y, c);
      assert pieces[0] + [] == pieces[0];
      assert pieces == [pieces[0]] + pieces[1..];
    }
  }
}
