/**
 * Mapping a match found in the normalized document back to an approximate
 * range of the original document (src/editorActions.ts, and the same lines in
 * src/textSearch.ts): the normalized offset is scaled by the length ratio, a
 * window around it is searched for the first significant line of the find
 * text, and the end is placed after the last occurrence of its last
 * significant line near there.
 */
module ApproxRange {
  import opened Syntax
  import opened JsStrings

  /**
   * `Math.round(m * (docLength / Math.max(1, normLength)))`, computed exactly:
   * the integer nearest to `m * docLength / N`, halves rounding up.
   */
  function ApproxIndex(m: int, docLength: nat, normLength: nat): int {
    var n := Max(1, normLength);
    (2 * m * docLength + n) / (2 * n)
  }

  /** The scaled offset is the nearest integer to `m * docLength / N`, a half rounding up, as `Math.round` does. */
  lemma ApproxIndexRounds(m: int, docLength: nat, normLength: nat)
    ensures var n := Max(1, normLength);
      var a := ApproxIndex(m, docLength, normLength);
      2 * n * a <= 2 * m * docLength + n < 2 * n * a + 2 * n
  {
  }

  /** A match inside the normalized document scales to an offset inside the original one. */
  lemma ApproxIndexInDocument(m: int, docLength: nat, normLength: nat)
    requires 0 <= m <= Max(1, normLength)
    ensures 0 <= ApproxIndex(m, docLength, normLength) <= docLength
  {
    var n := Max(1, normLength);
    var a := ApproxIndex(m, docLength, normLength);
    ApproxIndexRounds(m, docLength, normLength);
    assert 2 * n * a == 2 * (n * a) && 2 * m * docLength == 2 * (m * docLength);
    MulMonotone(m, n, docLength);
    MulMonotone(0, m, docLength);
    ScaledBounds(a, docLength, n, n * a, m * docLength, n * docLength);
  }

  /** The rounding bounds on `R == n * a`, with `0 <= P <= Q == n * d`, place `a` in `[0, d]`. */
  lemma ScaledBounds(a: int, d: int, n: int, R: int, P: int, Q: int)
    requires n >= 1 && R == n * a && Q == n * d && 0 <= P <= Q
    requires 2 * R <= 2 * P + n < 2 * R + 2 * n
    ensures 0 <= a <= d
  {
    assert n * (d + 1) == Q + n;
    BelowFromScaled(a, d, n);
    AboveFromScaled(a, n);
  }

  lemma MulMonotone(x: int, y: int, z: nat)
    ensures x <= y ==> x * z <= y * z
  {
    if x <= y {
      assert (y - x) * z >= 0;
    }
  }

  lemma BelowFromScaled(a: int, b: int, c: int)
    requires c > 0 && c * a < c * b + c
    ensures a <= b
  {
    MulMonotone(b + 1, a, c);
  }

  lemma AboveFromScaled(a: int, c: int)
    requires c > 0 && 0 < c * a + c
    ensures 0 <= a
  {
    MulMonotone(a, -1, c);
  }

  /** `Math.max(200, findLength * 3)`. */
  function SearchRadius(findLength: nat): (r: nat)
    ensures r >= 200 && r >= 3 * findLength
  {
    Max(200, 3 * findLength)
  }

  /** Index of the first line of `lines` that is not blank, or `|lines|`: what `find` locates. */
  function FirstSignificantIndex(lines: seq<string>): (i: nat)
    ensures i <= |lines|
    ensures forall j :: 0 <= j < i ==> Blank(lines[j])
    ensures i < |lines| ==> !Blank(lines[i])
  {
    if lines == [] || !Blank(lines[0]) then 0
    else
      var i := FirstSignificantIndex(lines[1..]);
      assert forall j :: 1 <= j < |lines| ==> lines[j] == lines[1..][j - 1];
      i + 1
  }

  /** Index of the last of the first `n` lines that is not blank, or `|lines|` when all are blank: `reverse().find`. */
  function LastSignificantIndex(lines: seq<string>, n: nat): (i: nat)
    requires n <= |lines|
    ensures i < n || i == |lines|
    ensures i < n ==> !Blank(lines[i]) && forall j :: i < j < n ==> Blank(lines[j])
    ensures i == |lines| ==> forall j :: 0 <= j < n ==> Blank(lines[j])
  {
    if n == 0 then |lines|
    else if !Blank(lines[n - 1]) then n - 1
    else LastSignificantIndex(lines, n - 1)
  }

  /** `firstLineTrimmed`: the trimmed first significant line of the find text, or "". */
  function FirstLine(trimmed: string): string {
    var lines := SplitLines(trimmed);
    var i := FirstSignificantIndex(lines);
    if i == |lines| then [] else Trim(lines[i])
  }

  /** `lastLineTrimmed`: the trimmed last significant line of the find text, or "". */
  function LastLine(trimmed: string): string {
    var lines := SplitLines(trimmed);
    var i := LastSignificantIndex(lines, |lines|);
    if i == |lines| then [] else Trim(lines[i])
  }

  /** The window searched for the first line around the scaled offset `approx`. */
  function WindowStart(approx: int, findLength: nat): int {
    Max(0, approx - SearchRadius(findLength))
  }

  function WindowEnd(docLength: nat, approx: int, findLength: nat): int {
    Min(docLength, approx + SearchRadius(findLength) + findLength)
  }

  /**
   * `originalStart` for the scaled offset `approx`: where the first line
   * `first` of a find text of length `k` occurs first in the window, or None
   * when `first` is empty or does not occur there.
   */
  function StartNear(doc: string, first: string, k: nat, approx: int): Option<int> {
    if first == [] then None
    else
      var lo := WindowStart(approx, k);
      var index := IndexOf(Substring(doc, lo, WindowEnd(|doc|, approx, k)), first, 0);
      if index == -1 then None else Some(lo + index)
  }

  /** `originalEnd` for a first line found at `start`, with `last` the find text's last line and `k` its length. */
  function OriginalEnd(doc: string, last: string, k: nat, start: int): int {
    ClipEnd(|doc|, start, k, EndGuess(doc, last, k, start))
  }

  /** The end before clipping: past the last occurrence of `last` in the end window, or `start + k`. */
  function EndGuess(doc: string, last: string, k: nat, start: int): int {
    if last == [] then start + k
    else
      var lo := start + Max(0, k - |last| - 50);
      var index := LastIndexOf(Substring(doc, lo, Min(|doc|, start + k + SearchRadius(k))), last);
      if index == -1 then start + k else lo + index + |last|
  }

  /** The clip to the document's length, falling back to `start + k` when the guess precedes the start. */
  function ClipEnd(docLength: nat, start: int, k: nat, guess: int): int {
    var clipped := Min(docLength, guess);
    Min(docLength, if clipped < start then start + k else clipped)
  }

  /** `document.positionAt` on offsets, then `new vscode.Range`, which orders its two ends. */
  function DocumentRange(docLength: nat, a: int, b: int): (r: Range)
    ensures InDocument(r, docLength)
    ensures 0 <= a <= b <= docLength ==> r == Range(a, b)
  {
    var p := ClampIndex(a, docLength);
    var q := ClampIndex(b, docLength);
    if p <= q then Range(p, q) else Range(q, p)
  }

  /** The range for the scaled offset `approx`, given the find text's first and last lines and its length. */
  function RangeNear(doc: string, first: string, last: string, k: nat, approx: int): (r: Option<Range>)
    ensures r.Some? ==> InDocument(r.value, |doc|)
  {
    match StartNear(doc, first, k, approx)
    case None => None
    case Some(start) => Some(DocumentRange(|doc|, start, OriginalEnd(doc, last, k, start)))
  }

  /** The approximate original range for a normalized match at `m`. */
  function MapToOriginal(doc: string, normLength: nat, trimmed: string, m: int): (r: Option<Range>)
    ensures r.Some? ==> InDocument(r.value, |doc|)
  {
    RangeNear(doc, FirstLine(trimmed), LastLine(trimmed), |trimmed|, ApproxIndex(m, |doc|, normLength))
  }

  /** `p` occurs in the slice `doc[lo..hi]` at `j - lo` exactly when it occurs in `doc` at `j` inside the slice. */
  lemma OccursInSlice(doc: string, lo: int, hi: int, p: string, j: int)
    requires 0 <= lo <= hi <= |doc|
    ensures OccursAt(doc[lo..hi], p, j - lo) <==> lo <= j && j + |p| <= hi && OccursAt(doc, p, j)
  {
    if lo <= j && j + |p| <= hi {
      var a, b := doc[lo..hi][j - lo..j - lo + |p|], doc[j..j + |p|];
      forall k | 0 <= k < |p| ensures a[k] == b[k] {
        assert a[k] == doc[lo..hi][j - lo + k] == doc[j + k];
      }
      assert a == b;
    }
  }

  /** `p` occurs nowhere inside `doc[lo..hi]`. */
  predicate AbsentIn(doc: string, p: string, lo: int, hi: int) {
    forall i :: lo <= i && i + |p| <= hi ==> !OccursAt(doc, p, i)
  }

  /** `j` is the leftmost occurrence of `p` inside `doc[lo..hi]`. */
  predicate FirstOccurrenceIn(doc: string, p: string, lo: int, hi: int, j: int) {
    lo <= j && j + |p| <= hi && OccursAt(doc, p, j) && forall i :: lo <= i < j ==> !OccursAt(doc, p, i)
  }

  /** The first occurrence in a slice, in the slice's own offsets, is the first occurrence in the document past its start. */
  lemma FirstInSlice(doc: string, lo: int, hi: int, p: string)
    requires 0 <= lo <= hi <= |doc|
    ensures var index := IndexOf(doc[lo..hi], p, 0);
      (index == -1 <==> AbsentIn(doc, p, lo, hi))
      && (index != -1 ==> FirstOccurrenceIn(doc, p, lo, hi, lo + index))
  {
    var index := IndexOf(doc[lo..hi], p, 0);
    if index == -1 {
      NoneInSlice(doc, lo, hi, p);
    } else {
      FoundInSlice(doc, lo, hi, p);
      assert OccursAt(doc, p, lo + index);
    }
  }

  lemma NoneInSlice(doc: string, lo: int, hi: int, p: string)
    requires 0 <= lo <= hi <= |doc| && IndexOf(doc[lo..hi], p, 0) == -1
    ensures AbsentIn(doc, p, lo, hi)
  {
    assert ClampIndex(0, |doc[lo..hi]|) == 0;
    IndexOfSpec(doc[lo..hi], p, 0);
    forall i | lo <= i && i + |p| <= hi ensures !OccursAt(doc, p, i) {
      OccursInSlice(doc, lo, hi, p, i);
    }
  }

  lemma FoundInSlice(doc: string, lo: int, hi: int, p: string)
    requires 0 <= lo <= hi <= |doc| && IndexOf(doc[lo..hi], p, 0) != -1
    ensures FirstOccurrenceIn(doc, p, lo, hi, lo + IndexOf(doc[lo..hi], p, 0))
  {
    var s := doc[lo..hi];
    var index := IndexOf(s, p, 0);
    assert ClampIndex(0, |s|) == 0;
    IndexOfSpec(s, p, 0);
    FirstAtSliceOffset(doc, lo, hi, p, index);
  }

  lemma FirstAtSliceOffset(doc: string, lo: int, hi: int, p: string, index: int)
    requires 0 <= lo <= hi <= |doc|
    requires OccursAt(doc[lo..hi], p, index) && forall j :: 0 <= j < index ==> !OccursAt(doc[lo..hi], p, j)
    ensures FirstOccurrenceIn(doc, p, lo, hi, lo + index)
  {
    SliceOffsetOccurs(doc, lo, hi, p, index);
    forall i | lo <= i < lo + index ensures !OccursAt(doc, p, i) {
      OccursInSlice(doc, lo, hi, p, i);
    }
  }

  /** `OccursInSlice` with the offset given in the slice's own terms. */
  lemma SliceOffsetOccurs(doc: string, lo: int, hi: int, p: string, k: int)
    requires 0 <= lo <= hi <= |doc|
    ensures OccursAt(doc[lo..hi], p, k) <==> 0 <= k && lo + k + |p| <= hi && OccursAt(doc, p, lo + k)
  {
    OccursInSlice(doc, lo, hi, p, lo + k);
    assert lo + k - lo == k;
  }

  /**
   * Around an offset inside the document, the window lies in the document,
   * and the start is found exactly when the first line occurs in the window,
   * at its leftmost occurrence there.
   */
  lemma StartIsFirstLineInWindow(doc: string, first: string, k: nat, approx: int)
    requires 0 <= approx <= |doc|
    ensures var lo := WindowStart(approx, k);
      var hi := WindowEnd(|doc|, approx, k);
      var r := StartNear(doc, first, k, approx);
      0 <= lo <= hi <= |doc|
      && (r.None? <==> first == [] || AbsentIn(doc, first, lo, hi))
      && (r.Some? ==> FirstOccurrenceIn(doc, first, lo, hi, r.value))
  {
    var lo := WindowStart(approx, k);
    var hi := WindowEnd(|doc|, approx, k);
    assert Substring(doc, lo, hi) == doc[lo..hi];
    FirstInSlice(doc, lo, hi, first);
  }

  /**
   * The end is the start plus the find text's length (clipped to the
   * document), or the end of an occurrence of the last significant line; it
   * never precedes the start.
   */
  lemma EndAfterStart(doc: string, last: string, k: nat, start: int)
    requires 0 <= start <= |doc|
    ensures var e := OriginalEnd(doc, last, k, start);
      start <= e <= |doc|
      && (e == Min(|doc|, start + k) || (last != [] && OccursAt(doc, last, e - |last|)))
  {
    var g := EndGuess(doc, last, k, start);
    EndGuessCases(doc, last, k, start);
    ClipEndBounds(|doc|, start, k, g);
  }

  /** The guess is `start + k`, or the end of an occurrence of `last` in the document. */
  lemma EndGuessCases(doc: string, last: string, k: nat, start: int)
    requires 0 <= start <= |doc|
    ensures var g := EndGuess(doc, last, k, start);
      g == start + k || (last != [] && g <= |doc| && OccursAt(doc, last, g - |last|))
  {
    if last != [] {
      EndSnippetInDocument(doc, start, k, last);
    }
  }

  /** Clipping keeps the end in `[start, docLength]`, and it is the guess unless it falls back to `start + k`. */
  lemma ClipEndBounds(docLength: nat, start: int, k: nat, g: int)
    requires 0 <= start <= docLength && (g == start + k || g <= docLength)
    ensures var e := ClipEnd(docLength, start, k, g);
      start <= e <= docLength && (e == Min(docLength, start + k) || e == g)
  {}

  /** The end search window, when it yields an occurrence, yields one inside the document. */
  lemma EndSnippetInDocument(doc: string, start: int, k: nat, last: string)
    requires 0 <= start <= |doc| && last != []
    ensures var lo := start + Max(0, k - |last| - 50);
      var hi := Min(|doc|, start + k + SearchRadius(k));
      var index := LastIndexOf(Substring(doc, lo, hi), last);
      index != -1 ==> lo + index + |last| <= |doc| && OccursAt(doc, last, lo + index)
  {
    var lo := start + Max(0, k - |last| - 50);
    var hi := Min(|doc|, start + k + SearchRadius(k));
    assert lo <= hi || hi == |doc| < lo;
    LastInWindow(doc, lo, hi, last);
  }

  /** The last occurrence in a window that starts inside the document, or past its end, is in the document. */
  lemma LastInWindow(doc: string, lo: int, hi: int, p: string)
    requires p != [] && 0 <= lo && hi <= |doc| && (lo <= hi || hi == |doc| < lo)
    ensures var index := LastIndexOf(Substring(doc, lo, hi), p);
      index != -1 ==> lo + index + |p| <= |doc| && OccursAt(doc, p, lo + index)
  {
    if lo <= hi {
      assert Substring(doc, lo, hi) == doc[lo..hi];
      LastInSlice(doc, lo, hi, p);
    } else {
      LastBeyondEnd(doc, lo, hi, p);
    }
  }

  /** A window that starts past the end of the document is empty. */
  lemma LastBeyondEnd(doc: string, lo: int, hi: int, p: string)
    requires p != [] && hi == |doc| < lo
    ensures LastIndexOf(Substring(doc, lo, hi), p) == -1
  {
    assert Substring(doc, lo, hi) == [];
    LastInEmpty(p);
  }

  lemma LastInSlice(doc: string, lo: int, hi: int, p: string)
    requires 0 <= lo <= hi <= |doc|
    ensures var index := LastIndexOf(doc[lo..hi], p);
      index != -1 ==> lo + index + |p| <= |doc| && OccursAt(doc, p, lo + index)
  {
    var index := LastIndexOf(doc[lo..hi], p);
    LastIndexOfSpec(doc[lo..hi], p);
    if index != -1 {
      SliceOffsetOccurs(doc, lo, hi, p, index);
    }
  }

  lemma LastInEmpty(p: string)
    ensures LastIndexOf([], p) == -1 || p == []
  {
    LastIndexOfSpec([], p);
  }

  /**
   * `r` lies in the document, starts at an occurrence of `first`, and ends
   * `k` after its start (clipped to the document) or at the end of an
   * occurrence of `last`.
   */
  predicate Anchored(doc: string, first: string, last: string, k: nat, r: Range) {
    InDocument(r, |doc|)
    && OccursAt(doc, first, r.start)
    && (r.end == Min(|doc|, r.start + k) || (last != [] && OccursAt(doc, last, r.end - |last|)))
  }

  /**
   * Around an offset inside the document, a found range starts at an
   * occurrence of the first line, and ends `k` after it (clipped to the
   * document) or at the end of an occurrence of the last line.
   */
  lemma RangeNearIsAnchored(doc: string, first: string, last: string, k: nat, approx: int)
    requires 0 <= approx <= |doc|
    requires RangeNear(doc, first, last, k, approx).Some?
    ensures Anchored(doc, first, last, k, RangeNear(doc, first, last, k, approx).value)
  {
    var start := StartNear(doc, first, k, approx).value;
    StartOccurs(doc, first, k, approx, start);
    var e := OriginalEnd(doc, last, k, start);
    EndAfterStart(doc, last, k, start);
    RangeOfParts(doc, first, last, k, approx, start, e);
    AnchoredAt(doc, first, last, k, start, e);
  }

  /** A start found around an offset inside the document is an occurrence of the first line. */
  lemma StartOccurs(doc: string, first: string, k: nat, approx: int, start: int)
    requires 0 <= approx <= |doc| && StartNear(doc, first, k, approx) == Some(start)
    ensures 0 <= start <= |doc| && OccursAt(doc, first, start)
  {
    StartIsFirstLineInWindow(doc, first, k, approx);
  }

  /** The range is the start and the end, once the end is known not to precede the start. */
  lemma RangeOfParts(doc: string, first: string, last: string, k: nat, approx: int, start: int, e: int)
    requires StartNear(doc, first, k, approx) == Some(start)
    requires e == OriginalEnd(doc, last, k, start) && 0 <= start <= e <= |doc|
    ensures RangeNear(doc, first, last, k, approx) == Some(Range(start, e))
  {}

  /** A range from an occurrence of `first` to an end of the kind `EndAfterStart` describes is anchored. */
  lemma AnchoredAt(doc: string, first: string, last: string, k: nat, start: int, e: int)
    requires 0 <= start <= e <= |doc| && OccursAt(doc, first, start)
    requires e == Min(|doc|, start + k) || (last != [] && OccursAt(doc, last, e - |last|))
    ensures Anchored(doc, first, last, k, Range(start, e))
  {}

  /**
   * A match inside the normalized document scales to an offset inside the
   * original one, where the range is looked for with the find text's first
   * and last significant lines: `RangeNearIsAnchored` then applies.
   */
  lemma MappedRangeIsNear(doc: string, normLength: nat, trimmed: string, m: int)
    requires 0 <= m <= Max(1, normLength)
    ensures var approx := ApproxIndex(m, |doc|, normLength);
      0 <= approx <= |doc|
      && MapToOriginal(doc, normLength, trimmed, m)
         == RangeNear(doc, FirstLine(trimmed), LastLine(trimmed), |trimmed|, approx)
  {
    ApproxIndexInDocument(m, |doc|, normLength);
  }

  /** A range mapped from an offset inside the normalized document is anchored at the find text's lines. */
  lemma MappedRangeIsAnchored(doc: string, normLength: nat, trimmed: string, m: int)
    requires 0 <= m <= Max(1, normLength)
    requires MapToOriginal(doc, normLength, trimmed, m).Some?
    ensures Anchored(doc, FirstLine(trimmed), LastLine(trimmed), |trimmed|, MapToOriginal(doc, normLength, trimmed, m).value)
  {
    MappedRangeIsNear(doc, normLength, trimmed, m);
    var first, last, approx := FirstLine(trimmed), LastLine(trimmed), ApproxIndex(m, |doc|, normLength);
    assert RangeNear(doc, first, last, |trimmed|, approx).Some?;
    RangeNearIsAnchored(doc, first, last, |trimmed|, approx);
  }

  /**
   * Around an offset inside the document, no range is found exactly when the
   * first line is empty or does not occur in the window.
   */
  lemma MappedRangeMissing(doc: string, normLength: nat, trimmed: string, m: int)
    requires 0 <= m <= Max(1, normLength)
    ensures var approx := ApproxIndex(m, |doc|, normLength);
      var lo := WindowStart(approx, |trimmed|);
      var hi := WindowEnd(|doc|, approx, |trimmed|);
      var first := FirstLine(trimmed);
      MapToOriginal(doc, normLength, trimmed, m).None? <==> (first == [] || AbsentIn(doc, first, lo, hi))
  {
    ApproxIndexInDocument(m, |doc|, normLength);
    StartIsFirstLineInWindow(doc, FirstLine(trimmed), |trimmed|, ApproxIndex(m, |doc|, normLength));
  }

  /** A find text that is already trimmed and not empty has a first and a last significant line. */
  lemma TrimmedTextHasLines(trimmed: string)
    requires trimmed != [] && !IsWhitespace(trimmed[0])
    ensures FirstLine(trimmed) != [] && LastLine(trimmed) != []
  {
    var lines := SplitLines(trimmed);
    SplitLinesFirst(trimmed, []);
    assert !Blank(lines[0]) by {
      assert !IsWhitespace(lines[0][0]);
    }
    SignificantLinesExist(lines);
  }

  /** When the first line is not blank, both searches find a line that does not trim to nothing. */
  lemma SignificantLinesExist(lines: seq<string>)
    requires |lines| > 0 && !Blank(lines[0])
    ensures var i := FirstSignificantIndex(lines); i < |lines| && Trim(lines[i]) != []
    ensures var j := LastSignificantIndex(lines, |lines|); j < |lines| && Trim(lines[j]) != []
  {
    var i := FirstSignificantIndex(lines);
    var j := LastSignificantIndex(lines, |lines|);
    assert i == 0;
    assert j < |lines|;
  }

  /** The first piece of a split starts with the first character of the text when that is not a newline. */
  lemma SplitLinesFirst(s: string, current: string)
    requires '\n' !in current
    requires s != [] && s[0] != '\n'
    ensures |SplitLinesFrom(s, current)[0]| > |current|
    ensures SplitLinesFrom(s, current)[0][|current|] == s[0]
  {
    SplitLinesKeepsPrefix(s[1..], current + [s[0]]);
  }

  lemma {:induction false} SplitLinesKeepsPrefix(s: string, current: string)
    requires '\n' !in current
    ensures |SplitLinesFrom(s, current)[0]| >= |current|
    ensures SplitLinesFrom(s, current)[0][..|current|] == current
    decreases |s|
  {
    if s != [] && s[0] != '\n' {
      SplitLinesKeepsPrefix(s[1..], current + [s[0]]);
      assert (current + [s[0]])[..|current|] == current;
    }
  }
}
