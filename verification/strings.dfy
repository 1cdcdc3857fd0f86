/** The handful of Python `str` operations the annotation pipeline relies on:
    `strip`, `split` (on a separator and on whitespace), `join`, `count`,
    `in` (substring test) and `lower`. */
module Strings {

  /** The characters Python's `str.isspace`, `str.strip()` and `str.split()`
      treat as whitespace. */
  predicate IsSpace(c: char) {
    || c == ' '
    || ('\t' <= c <= '\r')
    || ('\U{1C}' <= c <= '\U{1F}')
    || c == '\U{85}'
    || c == '\U{A0}'
    || c == '\U{1680}'
    || ('\U{2000}' <= c <= '\U{200A}')
    || c == '\U{2028}'
    || c == '\U{2029}'
    || c == '\U{202F}'
    || c == '\U{205F}'
    || c == '\U{3000}'
  }

  /** Every character is whitespace (the empty string included). */
  predicate IsBlank(s: string) {
    forall i :: 0 <= i < |s| ==> IsSpace(s[i])
  }

  /** Drops leading whitespace: the result is a suffix of `s`. */
  function TrimStart(s: string): (r: string)
    ensures |r| <= |s| && r == s[|s| - |r|..]
    ensures IsBlank(s[..|s| - |r|])
    ensures r != [] ==> !IsSpace(r[0])
  {
    if s != [] && IsSpace(s[0]) then
      var r := TrimStart(s[1..]);
      TrimStartStep(s, r);
      r
    else s
  }

  /** A leading space followed by a trimmed tail: the tail's suffix is a
      suffix of the whole, after a blank prefix that takes in the space. */
  lemma TrimStartStep(s: string, r: string)
    requires s != [] && IsSpace(s[0]) && |r| <= |s| - 1
    requires r == s[1..][|s| - 1 - |r|..] && IsBlank(s[1..][..|s| - 1 - |r|])
    ensures r == s[|s| - |r|..] && IsBlank(s[..|s| - |r|])
  {
    forall i | 0 <= i < |s| - |r| ensures IsSpace(s[i]) {
      if i > 0 {
        assert s[i] == s[1..][..|s| - 1 - |r|][i - 1];
      }
    }
  }

  /** Drops trailing whitespace: the result is a prefix of `s`. */
  function TrimEnd(s: string): (r: string)
    ensures |r| <= |s| && r == s[..|r|]
    ensures IsBlank(s[|r|..])
    ensures r != [] ==> !IsSpace(r[|r| - 1])
  {
    if s != [] && IsSpace(s[|s| - 1]) then
      var r := TrimEnd(s[..|s| - 1]);
      assert s[|r|..] == s[..|s| - 1][|r|..] + [s[|s| - 1]];
      assert s[..|r|] == s[..|s| - 1][..|r|];
      r
    else s
  }

  /** `r` sits at position `i` of `s` with only whitespace before and after it. */
  predicate BlankAround(s: string, r: string, i: int) {
    0 <= i <= |s| - |r| && r == s[i..i + |r|] && IsBlank(s[..i]) && IsBlank(s[i + |r|..])
  }

  /** Python's `s.strip()`: the slice of `s` left after removing whitespace
      at both ends. */
  function Strip(s: string): (r: string)
    ensures r == [] <==> IsBlank(s)
    ensures r != [] ==> !IsSpace(r[0]) && !IsSpace(r[|r| - 1])
    ensures exists i :: BlankAround(s, r, i)
  {
    var t := TrimStart(s);
    var r := TrimEnd(t);
    StripSlice(s, t, r, |s| - |t|);
    r
  }

  /** The two trims together cut a blank prefix and a blank suffix off `s`,
      and nothing is left exactly when `s` is blank. */
  lemma StripSlice(s: string, t: string, r: string, i: nat)
    requires i <= |s| && t == s[i..] && IsBlank(s[..i]) && (t != [] ==> !IsSpace(t[0]))
    requires |r| <= |t| && r == t[..|r|] && IsBlank(t[|r|..])
    ensures r == [] <==> IsBlank(s)
    ensures exists i :: BlankAround(s, r, i)
  {
    assert BlankAround(s, r, i) by {
      assert t == s[i..];
      assert s[i..i + |r|] == t[..|r|];
      assert s[i + |r|..] == t[|r|..];
    }
    if r == [] {
      assert t[|r|..] == t;
      BlankConcat(s[..i], t);
      assert s[..i] + t == s;
    }
    if t != [] {
      assert s[i] == t[0];
      assert !IsBlank(s);
    }
  }

  /** Two blank strings make a blank string. */
  lemma BlankConcat(a: string, b: string)
    requires IsBlank(a) && IsBlank(b)
    ensures IsBlank(a + b)
  {
    forall k | 0 <= k < |a + b| ensures IsSpace((a + b)[k]) {
      if k >= |a| {
        assert (a + b)[k] == b[k - |a|];
      }
    }
  }

  /** Python's `sep.join(xs)` for a one-character separator. */
  function Join(xs: seq<string>, sep: char): string {
    if xs == [] then ""
    else if |xs| == 1 then xs[0]
    else xs[0] + [sep] + Join(xs[1..], sep)
  }

  /** Splits `s` at every character of `seps`, keeping empty pieces: Python's
      `s.split(c)` when `seps == {c}`, and `re.split("[...]", s)` for a
      character class. There is always at least one piece. */
  function SplitOn(s: string, seps: set<char>): (r: seq<string>)
    ensures |r| >= 1
  {
    if s == [] then [""]
    else
      var rest := SplitOn(s[1..], seps);
      if s[0] in seps then [""] + rest
      else [[s[0]] + rest[0]] + rest[1..]
  }

  /** No piece of a split contains a separator. */
  lemma {:induction false} SplitPiecesFree(s: string, seps: set<char>, k: nat, c: char)
    requires k < |SplitOn(s, seps)| && c in SplitOn(s, seps)[k]
    ensures c !in seps
    decreases |s|
  {
    if s != [] {
      var rest := SplitOn(s[1..], seps);
      if s[0] in seps {
        SplitPiecesFree(s[1..], seps, k - 1, c);
      } else if k == 0 {
        if c != s[0] {
          SplitPiecesFree(s[1..], seps, 0, c);
        }
      } else {
        SplitPiecesFree(s[1..], seps, k, c);
      }
    }
  }

  /** No piece of a split holds any separator. */
  lemma SplitPiecesAvoid(s: string, seps: set<char>)
    ensures forall k, c :: 0 <= k < |SplitOn(s, seps)| && c in SplitOn(s, seps)[k] ==> c !in seps
  {
    forall k, c | 0 <= k < |SplitOn(s, seps)| && c in SplitOn(s, seps)[k] ensures c !in seps {
      SplitPiecesFree(s, seps, k, c);
    }
  }

  /** The characters of `s` that belong to `seps`, in order: the separators
      a split at `seps` cuts at. */
  function SeparatorsOf(s: string, seps: set<char>): (r: seq<char>)
    ensures forall k :: 0 <= k < |r| ==> r[k] in seps
  {
    if s == [] then []
    else if s[0] in seps then [s[0]] + SeparatorsOf(s[1..], seps)
    else SeparatorsOf(s[1..], seps)
  }

  /** Pieces glued back together, with `glue[k]` between piece `k` and piece
      `k + 1`. */
  function Interleave(pieces: seq<string>, glue: seq<char>): string
    requires |pieces| == |glue| + 1
  {
    if glue == [] then pieces[0]
    else pieces[0] + [glue[0]] + Interleave(pieces[1..], glue[1..])
  }

  /** A split at a set of separators loses nothing: there is one more piece
      than separators, and gluing the pieces back with the separators the
      string held, in order, gives the string back. */
  lemma {:induction false} SplitRebuild(s: string, seps: set<char>)
    ensures |SplitOn(s, seps)| == |SeparatorsOf(s, seps)| + 1
    ensures Interleave(SplitOn(s, seps), SeparatorsOf(s, seps)) == s
    decreases |s|
  {
    if s != [] {
      var rest, glue := SplitOn(s[1..], seps), SeparatorsOf(s[1..], seps);
      SplitRebuild(s[1..], seps);
      if s[0] in seps {
        assert SplitOn(s, seps)[1..] == rest;
        assert s == [s[0]] + s[1..];
      } else if glue == [] {
        assert s == [s[0]] + rest[0];
      } else {
        var r := SplitOn(s, seps);
        assert r[1..] == rest[1..];
        assert r[0] + [glue[0]] + Interleave(rest[1..], glue[1..])
            == [s[0]] + (rest[0] + [glue[0]] + Interleave(rest[1..], glue[1..]));
        assert s == [s[0]] + s[1..];
      }
    }
  }

  /** Joining the pieces of a split with the separator gives the string back. */
  lemma {:induction false} JoinSplit(s: string, sep: char)
    ensures Join(SplitOn(s, {sep}), sep) == s
    decreases |s|
  {
    if s != [] {
      var rest := SplitOn(s[1..], {sep});
      JoinSplit(s[1..], sep);
      assert s == [s[0]] + s[1..];
      if s[0] == sep {
        assert SplitOn(s, {sep}) == [""] + rest;
        assert ([""] + rest)[1..] == rest;
      } else {
        var r := SplitOn(s, {sep});
        assert r == [[s[0]] + rest[0]] + rest[1..];
        if |rest| == 1 {
          assert r == [[s[0]] + rest[0]];
        } else {
          assert r[1..] == rest[1..];
          assert Join(rest, sep) == rest[0] + [sep] + Join(rest[1..], sep);
        }
      }
    }
  }

  /** A piece free of the separator, a separator, then anything: the first
      piece of the split is that piece. */
  lemma {:induction false} SplitAfterPiece(x: string, sep: char, t: string)
    requires sep !in x
    ensures SplitOn(x + [sep] + t, {sep}) == [x] + SplitOn(t, {sep})
    decreases |x|
  {
    if x == [] {
      assert x + [sep] + t == [sep] + t;
      assert ([sep] + t)[1..] == t;
    } else {
      SplitAfterPiece(x[1..], sep, t);
      var s := x + [sep] + t;
      assert s[0] == x[0] && s[1..] == x[1..] + [sep] + t;
      assert [x[0]] + x[1..] == x;
    }
  }

  /** A string with no separator splits into itself alone. */
  lemma {:induction false} SplitFree(x: string, sep: char)
    requires sep !in x
    ensures SplitOn(x, {sep}) == [x]
    decreases |x|
  {
    if x != [] {
      SplitFree(x[1..], sep);
      assert [x[0]] + x[1..] == x;
    }
  }

  /** Splitting a join gives the pieces back, as long as no piece holds the
      separator (the join of no pieces is the empty string, one piece). */
  lemma {:induction false} SplitJoin(xs: seq<string>, sep: char)
    requires |xs| >= 1
    requires forall k :: 0 <= k < |xs| ==> sep !in xs[k]
    ensures SplitOn(Join(xs, sep), {sep}) == xs
    decreases |xs|
  {
    if |xs| == 1 {
      SplitFree(xs[0], sep);
    } else {
      SplitJoin(xs[1..], sep);
      SplitAfterPiece(xs[0], sep, Join(xs[1..], sep));
      assert [xs[0]] + xs[1..] == xs;
    }
  }

  /** Python's `pat in s`. */
  predicate IsSubstring(pat: string, s: string) {
    exists i | 0 <= i <= |s| - |pat| :: OccursAt(pat, s, i)
  }

  /** `pat` occurs in `s` starting at position `i`. */
  predicate OccursAt(pat: string, s: string, i: int) {
    0 <= i <= |s| - |pat| && s[i..i + |pat|] == pat
  }

  /** Python's `s.count(pat)`: non-overlapping occurrences, scanning left to
      right. It is zero exactly when `pat` does not occur in `s`. */
  function Count(s: string, pat: string): (r: nat)
    requires pat != []
    ensures r == 0 <==> !IsSubstring(pat, s)
    ensures r <= |s|
    decreases |s|
  {
    if |s| < |pat| then 0
    else if s[..|pat|] == pat then
      assert OccursAt(pat, s, 0);
      1 + Count(s[|pat|..], pat)
    else
      var r := Count(s[1..], pat);
      assert IsSubstring(pat, s) ==> IsSubstring(pat, s[1..]) by {
        if IsSubstring(pat, s) {
          var i :| 0 <= i <= |s| - |pat| && OccursAt(pat, s, i);
          assert i != 0;
          assert s[1..][i - 1..i - 1 + |pat|] == s[i..i + |pat|];
          assert OccursAt(pat, s[1..], i - 1);
        }
      }
      assert IsSubstring(pat, s[1..]) ==> IsSubstring(pat, s) by {
        if IsSubstring(pat, s[1..]) {
          var i :| 0 <= i <= |s[1..]| - |pat| && OccursAt(pat, s[1..], i);
          assert s[i + 1..i + 1 + |pat|] == s[1..][i..i + |pat|];
          assert OccursAt(pat, s, i + 1);
        }
      }
      r
  }

  /** Occurrences of a single character add up over a concatenation. */
  lemma {:induction false} CountCharConcat(a: string, b: string, c: char)
    ensures Count(a + b, [c]) == Count(a, [c]) + Count(b, [c])
    decreases |a|
  {
    if a != [] {
      CountCharConcat(a[1..], b, c);
      assert (a + b)[1..] == a[1..] + b;
      assert (a + b)[..1] == a[..1];
    } else {
      assert a + b == b;
    }
  }

  /** The separators of a join are counted by `count` on top of whatever the
      pieces contain: with separator-free pieces, one fewer than the pieces. */
  lemma {:induction false} CountJoinSeparators(xs: seq<string>, sep: char)
    requires |xs| >= 1
    requires forall k :: 0 <= k < |xs| ==> sep !in xs[k]
    ensures Count(Join(xs, sep), [sep]) == |xs| - 1
    decreases |xs|
  {
    CountAbsentFirst(xs[0], [sep]);
    if |xs| > 1 {
      CountJoinSeparators(xs[1..], sep);
      CountCharConcat(xs[0] + [sep], Join(xs[1..], sep), sep);
      CountCharConcat(xs[0], [sep], sep);
      assert [sep][..1] == [sep];
      assert Count([sep], [sep]) == 1;
    }
  }

  /** A string without the first character of `pat` has no occurrence of it. */
  lemma CountAbsentFirst(s: string, pat: string)
    requires pat != [] && pat[0] !in s
    ensures Count(s, pat) == 0
  {
    forall i | 0 <= i <= |s| - |pat| ensures !OccursAt(pat, s, i) {
      assert s[i..i + |pat|][0] == s[i];
      assert s[i] in s;
    }
  }

  /** A one-character pattern occurs exactly when the character does. */
  lemma CharSubstring(c: char, s: string)
    ensures IsSubstring([c], s) <==> c in s
  {
    if c in s {
      var i :| 0 <= i < |s| && s[i] == c;
      assert OccursAt([c], s, i);
    }
    if IsSubstring([c], s) {
      var i :| 0 <= i <= |s| - 1 && OccursAt([c], s, i);
      assert s[i..i + 1][0] == s[i];
    }
  }

  /** ASCII lower-casing of one character. */
  function LowerChar(c: char): char {
    if 'A' <= c <= 'Z' then (c as int + 32) as char else c
  }

  /** Python's `s.lower()`, restricted to the ASCII letters. */
  function Lower(s: string): (r: string)
    ensures |r| == |s|
    ensures forall i :: 0 <= i < |s| ==> r[i] == LowerChar(s[i])
  {
    seq(|s|, i requires 0 <= i < |s| => LowerChar(s[i]))
  }

  /** Position `i` starts a word: a non-space character not preceded by one. */
  predicate StartsWord(s: string, i: int)
    requires 0 <= i < |s|
  {
    !IsSpace(s[i]) && (i == 0 || IsSpace(s[i - 1]))
  }

  /** Python's `len(s.split())`: the number of maximal runs of non-whitespace
      characters. It is zero exactly for blank strings. */
  function WordCount(s: string): (r: nat)
    ensures r == 0 <==> IsBlank(s)
    ensures r <= |s|
    decreases |s|
  {
    if s == [] then 0
    else
      var p := s[..|s| - 1];
      var n := WordCount(p);
      assert forall k :: 0 <= k < |p| ==> p[k] == s[k];
      if StartsWord(s, |s| - 1) then n + 1 else n
  }

  /** Lower-casing leaves whitespace where it was, so it keeps the word count. */
  lemma {:induction false} WordCountLower(s: string)
    ensures WordCount(Lower(s)) == WordCount(s)
    decreases |s|
  {
    if s != [] {
      var p := s[..|s| - 1];
      WordCountLower(p);
      assert Lower(s)[..|s| - 1] == Lower(p);
    }
  }
}
