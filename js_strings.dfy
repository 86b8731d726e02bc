/**
 * The JavaScript string operations the text fallback relies on, with the
 * language's own semantics: `trim` and the regular-expression class `\s`
 * share one whitespace set, `.` stops at line terminators, `indexOf` clamps
 * its start position, and `substring` clamps both arguments and swaps them
 * when the first is larger.
 */
module JsStrings {

  /** WhiteSpace and LineTerminator code points, as `trim` and `\s` see them. */
  predicate IsWhitespace(c: char) {
    c == '\t' || c == '\n' || c == '\U{000B}' || c == '\U{000C}' || c == '\r' || c == ' '
    || c == '\U{00A0}' || c == '\U{1680}' || ('\U{2000}' <= c <= '\U{200A}')
    || c == '\U{2028}' || c == '\U{2029}' || c == '\U{202F}' || c == '\U{205F}'
    || c == '\U{3000}' || c == '\U{FEFF}'
  }

  /** The characters a regular-expression `.` does not match. */
  predicate IsLineTerminator(c: char) {
    c == '\n' || c == '\r' || c == '\U{2028}' || c == '\U{2029}'
  }

  lemma LineTerminatorIsWhitespace(c: char)
    ensures IsLineTerminator(c) ==> IsWhitespace(c)
  {}

  function Min(a: int, b: int): int { if a <= b then a else b }
  function Max(a: int, b: int): int { if a >= b then a else b }

  /** `pat` occurs in `s` at offset `i`. */
  predicate OccursAt(s: string, pat: string, i: int) {
    0 <= i && i + |pat| <= |s| && s[i..i + |pat|] == pat
  }

  /** `String.prototype.trimStart`. */
  function TrimStart(s: string): (r: string)
    ensures |r| <= |s| && r == s[|s| - |r|..]
    ensures r == [] || !IsWhitespace(r[0])
    ensures forall i :: 0 <= i < |s| - |r| ==> IsWhitespace(s[i])
  {
    if s == [] || !IsWhitespace(s[0]) then s else TrimStart(s[1..])
  }

  /** `String.prototype.trimEnd`. */
  function TrimEnd(s: string): (r: string)
    ensures |r| <= |s| && r == s[..|r|]
    ensures r == [] || !IsWhitespace(r[|r| - 1])
    ensures forall i :: |r| <= i < |s| ==> IsWhitespace(s[i])
  {
    if s == [] || !IsWhitespace(s[|s| - 1]) then s else TrimEnd(s[..|s| - 1])
  }

  /** Every character of `s` is whitespace: what `s.trim() === ''` tests. */
  predicate Blank(s: string) {
    forall i :: 0 <= i < |s| ==> IsWhitespace(s[i])
  }

  /** `r` is the slice of `s` that starts at offset `lo`. */
  predicate SliceAt(r: string, s: string, lo: int) {
    0 <= lo <= |s| - |r| && r == s[lo..lo + |r|]
  }

  /**
   * `r` is what trimming `s` leaves: the slice at `lo` with only whitespace
   * before and after it, and no whitespace at its own two ends.
   */
  predicate TrimmedAt(r: string, s: string, lo: int) {
    SliceAt(r, s, lo)
    && (forall i :: 0 <= i < lo ==> IsWhitespace(s[i]))
    && (forall i :: lo + |r| <= i < |s| ==> IsWhitespace(s[i]))
    && (r == [] || (!IsWhitespace(r[0]) && !IsWhitespace(r[|r| - 1])))
  }

  /**
   * `String.prototype.trim`: `trimStart` then `trimEnd`, which leaves the
   * slice described by `TrimmedAt` (see `TrimIsTrimmedAt` and `TrimUnique`).
   */
  function Trim(s: string): (r: string)
    ensures r == TrimEnd(TrimStart(s))
    ensures exists lo :: SliceAt(r, s, lo)
    ensures r == [] || (!IsWhitespace(r[0]) && !IsWhitespace(r[|r| - 1]))
    ensures Blank(s) <==> r == []
  {
    var t := TrimStart(s);
    var u := TrimEnd(t);
    var lo := |s| - |t|;
    assert SliceAt(u, s, lo);
    TrimmedEmptyIffBlank(s);
    u
  }

  /** Trimming drops only whitespace, at the two edges, and leaves no whitespace at its own edges. */
  lemma TrimIsTrimmedAt(s: string)
    ensures exists lo :: TrimmedAt(Trim(s), s, lo)
  {
    TrimStartEndAt(s, TrimStart(s), Trim(s), |s| - |TrimStart(s)|);
  }

  /** The slice `TrimEnd` leaves of the slice `TrimStart` leaves, described by their contracts. */
  lemma TrimStartEndAt(s: string, t: string, u: string, lo: int)
    requires 0 <= lo <= |s| && t == s[lo..]
    requires t == [] || !IsWhitespace(t[0])
    requires forall i :: 0 <= i < lo ==> IsWhitespace(s[i])
    requires |u| <= |t| && u == t[..|u|]
    requires u == [] || !IsWhitespace(u[|u| - 1])
    requires forall i :: |u| <= i < |t| ==> IsWhitespace(t[i])
    ensures TrimmedAt(u, s, lo)
  {
    assert s[lo..lo + |u|] == u;
    forall i | lo + |u| <= i < |s| ensures IsWhitespace(s[i]) {
      assert s[i] == t[i - lo];
    }
    assert u != [] ==> u[0] == t[0];
  }

  /** Only one slice is left by trimming: whatever `TrimmedAt` describes is `Trim`'s result. */
  lemma TrimUnique(s: string, r: string, lo: int)
    requires TrimmedAt(r, s, lo)
    ensures Trim(s) == r
  {
    TrimIsTrimmedAt(s);
    var lu :| TrimmedAt(Trim(s), s, lu);
    TrimmedAtUnique(s, r, lo, Trim(s), lu);
  }

  lemma TrimmedAtUnique(s: string, r: string, lo: int, u: string, lu: int)
    requires TrimmedAt(r, s, lo) && TrimmedAt(u, s, lu)
    ensures r == u
  {
    TrimmedAtBlank(s, r, lo);
    TrimmedAtBlank(s, u, lu);
    if r != [] && u != [] {
      assert s[lo] == r[0] && s[lu] == u[0];
      SameStart(s, lo, lu);
      var e, eu := lo + |r|, lu + |u|;
      assert s[e - 1] == r[|r| - 1] && s[eu - 1] == u[|u| - 1];
      assert e == eu;
    }
  }

  /** Trimming both ends leaves nothing exactly when every character is whitespace. */
  lemma TrimmedEmptyIffBlank(s: string)
    ensures Blank(s) <==> TrimEnd(TrimStart(s)) == []
  {
    var t := TrimStart(s);
    if t != [] {
      assert t[0] == s[|s| - |t|];
    }
  }

  /** What trimming leaves is empty exactly when the text is blank. */
  lemma TrimmedAtBlank(s: string, r: string, lo: int)
    requires TrimmedAt(r, s, lo)
    ensures r == [] <==> Blank(s)
  {
    if r != [] {
      assert s[lo] == r[0];
    } else {
      forall i | 0 <= i < |s| ensures IsWhitespace(s[i]) {
        if i >= lo { assert lo + |r| <= i; }
      }
    }
  }

  lemma SameStart(s: string, lo: int, lu: int)
    requires 0 <= lo < |s| && 0 <= lu < |s| && !IsWhitespace(s[lo]) && !IsWhitespace(s[lu])
    requires forall i :: 0 <= i < lo ==> IsWhitespace(s[i])
    requires forall i :: 0 <= i < lu ==> IsWhitespace(s[i])
    ensures lo == lu
  {
  }

  /**
   * `s.indexOf(pat, from)`: the first occurrence at or after `from` (clamped
   * to `[0, |s|]`), or -1 (see `IndexOfSpec`).
   */
  function IndexOf(s: string, pat: string, from: int): (r: int)
    ensures -1 <= r <= |s|
    ensures r != -1 ==> ClampIndex(from, |s|) <= r && r + |pat| <= |s|
    decreases |s| - from
  {
    var lo := ClampIndex(from, |s|);
    if lo + |pat| > |s| then -1
    else if s[lo..lo + |pat|] == pat then lo
    else IndexOf(s, pat, lo + 1)
  }

  /** `indexOf` finds the leftmost occurrence at or after the clamped start, and -1 means there is none. */
  lemma {:induction false} IndexOfSpec(s: string, pat: string, from: int)
    ensures var r := IndexOf(s, pat, from);
      (r == -1 <==> forall i :: ClampIndex(from, |s|) <= i ==> !OccursAt(s, pat, i))
      && (r != -1 ==> OccursAt(s, pat, r) && forall i :: ClampIndex(from, |s|) <= i < r ==> !OccursAt(s, pat, i))
    decreases |s| - from
  {
    var lo := ClampIndex(from, |s|);
    if lo + |pat| <= |s| {
      if s[lo..lo + |pat|] == pat {
        assert OccursAt(s, pat, lo);
      } else {
        IndexOfSpec(s, pat, lo + 1);
        assert !OccursAt(s, pat, lo);
      }
    }
  }

  /** `s.lastIndexOf(pat)`: the last occurrence, or -1 (see `LastIndexOfSpec`). */
  function LastIndexOf(s: string, pat: string): (r: int)
    ensures -1 <= r <= |s|
  {
    LastIndexOfBelow(s, pat, |s| - |pat|)
  }

  /** The last occurrence at an offset no larger than `hi`, or -1. */
  function LastIndexOfBelow(s: string, pat: string, hi: int): (r: int)
    requires hi <= |s| - |pat|
    ensures r == -1 || 0 <= r <= hi
    decreases hi + 1
  {
    if hi < 0 then -1
    else if s[hi..hi + |pat|] == pat then hi
    else LastIndexOfBelow(s, pat, hi - 1)
  }

  /** `lastIndexOf` finds an occurrence with none after it, and -1 means there is none. */
  lemma LastIndexOfSpec(s: string, pat: string)
    ensures var r := LastIndexOf(s, pat);
      (r == -1 <==> forall i :: !OccursAt(s, pat, i))
      && (r != -1 ==> OccursAt(s, pat, r) && forall i :: r < i ==> !OccursAt(s, pat, i))
  {
    LastIndexOfBelowSpec(s, pat, |s| - |pat|);
  }

  lemma {:induction false} LastIndexOfBelowSpec(s: string, pat: string, hi: int)
    requires hi <= |s| - |pat|
    ensures var r := LastIndexOfBelow(s, pat, hi);
      (r == -1 <==> forall i :: i <= hi ==> !OccursAt(s, pat, i))
      && (r != -1 ==> OccursAt(s, pat, r) && forall i :: r < i <= hi ==> !OccursAt(s, pat, i))
    decreases hi + 1
  {
    if hi >= 0 {
      if s[hi..hi + |pat|] == pat {
        assert OccursAt(s, pat, hi);
      } else {
        LastIndexOfBelowSpec(s, pat, hi - 1);
        assert !OccursAt(s, pat, hi);
      }
    }
  }

  /** The clamp `substring` applies to each argument. */
  function ClampIndex(i: int, len: nat): (r: nat)
    ensures r <= len
    ensures 0 <= i <= len ==> r == i
  {
    if i < 0 then 0 else if i > len then len else i
  }

  /** `s.substring(a, b)`: both ends clamped to `[0, |s|]`, swapped when reversed. */
  function Substring(s: string, a: int, b: int): (r: string)
    ensures var lo, hi := ClampIndex(a, |s|), ClampIndex(b, |s|); r == s[Min(lo, hi)..Max(lo, hi)]
    ensures 0 <= a <= b <= |s| ==> r == s[a..b]
    ensures b <= a && 0 <= b && a <= |s| ==> r == s[b..a]
    ensures b <= 0 && a <= 0 ==> r == []
  {
    var lo := ClampIndex(a, |s|);
    var hi := ClampIndex(b, |s|);
    if lo <= hi then s[lo..hi] else s[hi..lo]
  }

  /** `pieces.join('\n')`. */
  function JoinLines(pieces: seq<string>): string {
    if |pieces| <= 1 then (if pieces == [] then [] else pieces[0])
    else pieces[0] + "\n" + JoinLines(pieces[1..])
  }

  /**
   * `s.split('\n')`: never empty, no piece holds a newline, and joining the
   * pieces with newlines gives `s` back, so the pieces are exactly the text
   * between consecutive newlines.
   */
  function SplitLines(s: string): (r: seq<string>)
    ensures |r| >= 1
    ensures forall i :: 0 <= i < |r| ==> '\n' !in r[i]
    ensures JoinLines(r) == s
  {
    assert [] + s == s;
    SplitLinesFrom(s, [])
  }

  /** The pieces of `current + s`, where `current` is the piece read so far. */
  function SplitLinesFrom(s: string, current: string): (r: seq<string>)
    requires '\n' !in current
    ensures |r| >= 1
    ensures forall i :: 0 <= i < |r| ==> '\n' !in r[i]
    ensures JoinLines(r) == current + s
  {
    if s == [] then [current]
    else if s[0] == '\n' then
      var rest := SplitLinesFrom(s[1..], []);
      JoinCons(current, rest, s);
      [current] + rest
    else
      HeadMoves(current, s);
      SplitLinesFrom(s[1..], current + [s[0]])
  }

  /** A piece placed before the others is joined to them by a newline. */
  lemma JoinCons(current: string, rest: seq<string>, s: string)
    requires '\n' !in current && |rest| >= 1 && forall i :: 0 <= i < |rest| ==> '\n' !in rest[i]
    requires s != [] && s[0] == '\n' && JoinLines(rest) == [] + s[1..]
    ensures JoinLines([current] + rest) == current + s
    ensures forall i :: 0 <= i < |[current] + rest| ==> '\n' !in ([current] + rest)[i]
  {
    assert ([current] + rest)[1..] == rest;
    assert s == "\n" + s[1..];
    assert [] + s[1..] == s[1..];
    forall i | 0 <= i < |[current] + rest| ensures '\n' !in ([current] + rest)[i] {
      if i > 0 { assert ([current] + rest)[i] == rest[i - 1]; }
    }
  }

  lemma HeadMoves(current: string, s: string)
    requires s != []
    ensures current + s == (current + [s[0]]) + s[1..]
  {
    assert s == [s[0]] + s[1..];
  }

  /** The characters of `s` that are not whitespace, in order. */
  function NonWhitespace(s: string): (r: string)
    ensures forall c :: c in r ==> c in s && !IsWhitespace(c)
  {
    if s == [] then []
    else if IsWhitespace(s[0]) then NonWhitespace(s[1..])
    else [s[0]] + NonWhitespace(s[1..])
  }

  lemma {:induction false} NonWhitespaceAppend(a: string, b: string)
    ensures NonWhitespace(a + b) == NonWhitespace(a) + NonWhitespace(b)
  {
    if a == [] {
      assert a + b == b;
    } else {
      assert (a + b)[0] == a[0];
      assert (a + b)[1..] == a[1..] + b;
      NonWhitespaceAppend(a[1..], b);
    }
  }
}
