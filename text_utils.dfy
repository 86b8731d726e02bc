/**
 * Text normalization for the text fallback (src/textUtils.ts): comments are
 * removed by a per-language rule, every whitespace run becomes one space, and
 * the edges are trimmed. Also the line-ending normalization shared by
 * src/textUtils.ts and src/extension.ts.
 */
module TextUtils {
  import opened JsStrings

  /** Which comment-removal expression a language id selects. */
  datatype CommentStyle =
    | CLike      // `/\/\*[\s\S]*?\*\/|\/\/.*/g`
    | BlockOnly  // `/\/\*[\s\S]*?\*\//g`
    | Markup     // `/<!--[\s\S]*?-->/g`
    | Hash       // `/#.*/g`
    | NoComments

  function CommentStyleOf(languageId: string): CommentStyle {
    if languageId in ["css", "less", "scss", "javascript", "javascriptreact", "typescript",
                      "typescriptreact", "jsonc"] then CLike
    else if languageId == "json" then BlockOnly
    else if languageId in ["html", "xml", "vue"] then Markup
    else if languageId in ["python", "ruby", "shellscript", "perl", "r"] then Hash
    else NoComments
  }

  predicate StartsWith(s: string, p: string) {
    |p| <= |s| && s[..|p|] == p
  }

  /** Offset of the first line terminator in `s`, or `|s|`: where a `.*` match stops. */
  function LineEnd(s: string): (n: nat)
    ensures n <= |s|
    ensures forall i :: 0 <= i < n ==> !IsLineTerminator(s[i])
    ensures n < |s| ==> IsLineTerminator(s[n])
  {
    if s == [] || IsLineTerminator(s[0]) then 0 else 1 + LineEnd(s[1..])
  }

  /**
   * Length of the delimited comment that opens `s` (`open`, then the first
   * `close` that does not overlap it), or 0 when `s` does not open one or it
   * is never closed.
   */
  function DelimitedLength(s: string, open: string, close: string): (n: nat)
    requires close != []
    ensures n == 0 || (StartsWith(s, open) && |open| + |close| <= n <= |s| && OccursAt(s, close, n - |close|))
    ensures n > 0 ==> forall i :: |open| <= i < n - |close| ==> !OccursAt(s, close, i)
    ensures n == 0 && StartsWith(s, open) ==> forall i :: |open| <= i ==> !OccursAt(s, close, i)
  {
    if !StartsWith(s, open) then 0
    else
      var j := IndexOf(s, close, |open|);
      IndexOfSpec(s, close, |open|);
      assert ClampIndex(|open|, |s|) == |open|;
      if j == -1 then 0 else j + |close|
  }

  /**
   * A global `replace` of the style's expression by '': at each position the
   * expression is tried (alternatives in order) and, on a match, the scan
   * resumes after it.
   */
  function StripComments(s: string, style: CommentStyle): (r: string)
    ensures |r| <= |s|
    decreases |s|
  {
    if s == [] then []
    else
      var block := if style == CLike || style == BlockOnly then DelimitedLength(s, "/*", "*/")
                   else if style == Markup then DelimitedLength(s, "<!--", "-->")
                   else 0;
      if block > 0 then StripComments(s[block..], style)
      else if style == CLike && StartsWith(s, "//") then StripComments(s[LineEnd(s)..], style)
      else if style == Hash && s[0] == '#' then StripComments(s[LineEnd(s)..], style)
      else [s[0]] + StripComments(s[1..], style)
  }

  /** `replace(/\s+/g, ' ')`. */
  function CollapseWhitespace(s: string): (r: string)
    ensures |r| <= |s|
    ensures r == [] <==> s == []
    ensures s != [] && !IsWhitespace(s[0]) ==> r[0] == s[0]
    decreases |s|
  {
    if s == [] then []
    else if IsWhitespace(s[0]) then
      var rest := TrimStart(s);
      assert rest != s;
      [' '] + CollapseWhitespace(rest)
    else [s[0]] + CollapseWhitespace(s[1..])
  }

  /** Collapsing leaves only single `' '` characters between the other characters. */
  lemma {:induction false} CollapsedIsSingleSpaced(s: string)
    ensures SingleSpaced(CollapseWhitespace(s))
    decreases |s|
  {
    if s == [] {
    } else if IsWhitespace(s[0]) {
      var rest := TrimStart(s);
      CollapsedIsSingleSpaced(rest);
      var r := CollapseWhitespace(rest);
      assert CollapseWhitespace(s) == [' '] + r;
      assert r == [] || !IsWhitespace(r[0]);
    } else {
      CollapsedIsSingleSpaced(s[1..]);
      assert CollapseWhitespace(s) == [s[0]] + CollapseWhitespace(s[1..]);
    }
  }

  /** `normalizeAndCleanText`. */
  function NormalizeAndCleanText(text: string, languageId: string): (r: string)
  {
    Trim(CollapseWhitespace(StripComments(text, CommentStyleOf(languageId))))
  }

  /** A string that comes out of the normalization: single spaces only, none at the edges. */
  predicate IsNormalized(t: string) {
    (t == [] || (!IsWhitespace(t[0]) && !IsWhitespace(t[|t| - 1]))) && SingleSpaced(t)
  }

  /** The output has no edge whitespace, and every whitespace run is one `' '`. */
  lemma {:induction false} NormalizedShape(text: string, languageId: string)
    ensures IsNormalized(NormalizeAndCleanText(text, languageId))
  {
    var c := CollapseWhitespace(StripComments(text, CommentStyleOf(languageId)));
    CollapsedIsSingleSpaced(StripComments(text, CommentStyleOf(languageId)));
    TrimOfCollapsed(c);
  }

  /** Single spaces between words are what collapsing leaves; trimming a slice keeps that. */
  predicate SingleSpaced(c: string) {
    (forall i :: 0 <= i < |c| && IsWhitespace(c[i]) ==> c[i] == ' ')
    && (forall i :: 0 <= i < |c| - 1 ==> !(IsWhitespace(c[i]) && IsWhitespace(c[i + 1])))
  }

  lemma TrimOfCollapsed(c: string)
    requires SingleSpaced(c)
    ensures IsNormalized(Trim(c))
  {
    var t := Trim(c);
    var lo :| SliceAt(t, c, lo);
    SliceOfSingleSpaced(t, c, lo);
  }

  lemma SliceOfSingleSpaced(t: string, c: string, lo: int)
    requires SingleSpaced(c) && SliceAt(t, c, lo)
    ensures SingleSpaced(t)
  {
    forall i | 0 <= i < |t| && IsWhitespace(t[i]) ensures t[i] == ' ' {
      assert t[i] == c[lo + i];
    }
    forall i | 0 <= i < |t| - 1 ensures !(IsWhitespace(t[i]) && IsWhitespace(t[i + 1])) {
      assert t[i] == c[lo + i] && t[i + 1] == c[lo + i + 1];
    }
  }

  /** Normalizing a normalized string changes nothing when no comment can start in it. */
  lemma {:induction false} CollapseOfNormalized(t: string)
    requires IsNormalized(t)
    ensures CollapseWhitespace(t) == t
    decreases |t|, 1
  {
    if t == [] {
    } else if |t| > 1 && IsWhitespace(t[1]) {
      CollapseOfNormalizedSpace(t);
    } else {
      CollapseOfNormalizedWord(t);
    }
  }

  lemma {:induction false} CollapseOfNormalizedSpace(t: string)
    requires IsNormalized(t) && |t| > 1 && IsWhitespace(t[1])
    ensures CollapseWhitespace(t) == t
    decreases |t|, 0
  {
    var u := t[1..];
    NormalizedDropSpace(t);
    TrimStartOfSingleSpace(u);
    CollapseOfNormalized(u[1..]);
    CollapseCharStep(t);
    CollapseRunStep(u);
    assert t == [t[0]] + ([' '] + u[1..]);
  }

  lemma {:induction false} CollapseOfNormalizedWord(t: string)
    requires IsNormalized(t) && t != [] && (|t| == 1 || !IsWhitespace(t[1]))
    ensures CollapseWhitespace(t) == t
    decreases |t|, 0
  {
    NormalizedDropWord(t);
    CollapseOfNormalized(t[1..]);
    CollapseCharStep(t);
    assert t == [t[0]] + t[1..];
  }

  lemma NormalizedDropWord(t: string)
    requires IsNormalized(t) && t != [] && (|t| == 1 || !IsWhitespace(t[1]))
    ensures IsNormalized(t[1..])
  {
    var u := t[1..];
    assert SliceAt(u, t, 1);
    SliceOfSingleSpaced(u, t, 1);
  }

  lemma NormalizedDropSpace(t: string)
    requires IsNormalized(t) && |t| > 1 && IsWhitespace(t[1])
    ensures t[1] == ' ' && |t| > 2 && !IsWhitespace(t[2]) && IsNormalized(t[2..])
  {
    var u := t[2..];
    assert SliceAt(u, t, 2);
    SliceOfSingleSpaced(u, t, 2);
  }

  lemma TrimStartOfSingleSpace(u: string)
    requires |u| > 0 && u[0] == ' ' && (|u| == 1 || !IsWhitespace(u[1]))
    ensures TrimStart(u) == u[1..]
  {
    assert TrimStart(u) == TrimStart(u[1..]);
  }

  /** Stripping changes nothing in text where no comment expression can start. */
  lemma {:induction false} StripWithoutMarkers(s: string, style: CommentStyle)
    requires '/' !in s && '<' !in s && '#' !in s
    ensures StripComments(s, style) == s
    decreases |s|
  {
    if s != [] {
      assert !StartsWith(s, "/*") && !StartsWith(s, "<!--") && !StartsWith(s, "//") by {
        assert s[0] != '/' && s[0] != '<';
      }
      StripWithoutMarkers(s[1..], style);
      assert s == [s[0]] + s[1..];
    }
  }

  /** A normalized text in which no comment can start is its own normalization. */
  lemma NormalizedIsFixedPoint(t: string, languageId: string)
    requires IsNormalized(t) && '/' !in t && '<' !in t && '#' !in t
    ensures NormalizeAndCleanText(t, languageId) == t
  {
    StripWithoutMarkers(t, CommentStyleOf(languageId));
    CollapseOfNormalized(t);
    assert TrimStart(t) == t;
    assert TrimEnd(t) == t;
  }

  /**
   * The length and the characters of a whitespace run never matter: two texts
   * that differ only in one run between the same words normalize alike.
   */
  lemma WhitespaceRunIgnored(a: string, w1: string, w2: string, b: string, languageId: string)
    requires a == [] || !IsWhitespace(a[|a| - 1])
    requires b == [] || !IsWhitespace(b[0])
    requires w1 != [] && w2 != []
    requires forall i :: 0 <= i < |w1| ==> IsWhitespace(w1[i])
    requires forall i :: 0 <= i < |w2| ==> IsWhitespace(w2[i])
    requires forall c :: c in a + w1 + w2 + b ==> c != '/' && c != '<' && c != '#'
    ensures NormalizeAndCleanText(a + w1 + b, languageId) == NormalizeAndCleanText(a + w2 + b, languageId)
  {
    var style := CommentStyleOf(languageId);
    assert a + w1 + b == a + (w1 + b) && a + w2 + b == a + (w2 + b);
    forall c | c in a + (w1 + b) ensures c != '/' && c != '<' && c != '#' {
      assert c in a + w1 + w2 + b;
    }
    forall c | c in a + (w2 + b) ensures c != '/' && c != '<' && c != '#' {
      assert c in a + w1 + w2 + b;
    }
    StripWithoutMarkers(a + (w1 + b), style);
    StripWithoutMarkers(a + (w2 + b), style);
    CollapseAppend(a, w1 + b);
    CollapseAppend(a, w2 + b);
    CollapseRun(w1, b);
    CollapseRun(w2, b);
  }

  /**
   * Whitespace before the first word and after the last never matters: a text
   * in which no comment can start normalizes as it does with any whitespace
   * added at either edge, including none.
   */
  lemma EdgeWhitespaceIgnored(w1: string, t: string, w2: string, languageId: string)
    requires Blank(w1) && Blank(w2)
    requires '/' !in t && '<' !in t && '#' !in t
    ensures NormalizeAndCleanText(w1 + t + w2, languageId) == NormalizeAndCleanText(t, languageId)
  {
    var t1, core, t2 := TrimParts(t);
    BlankAppend(w1, t1);
    BlankAppend(t2, w2);
    Regroup(w1, t1, core, t2, w2);
    CoreEdgesIgnored(w1 + t + w2, w1 + t1, core, t2 + w2, languageId);
    CoreEdgesIgnored(t, t1, core, t2, languageId);
  }

  /** A text split into its trim and the whitespace trimming drops on either side. */
  lemma TrimParts(t: string) returns (t1: string, core: string, t2: string)
    requires '/' !in t && '<' !in t && '#' !in t
    ensures t == t1 + (core + t2) && Blank(t1) && Blank(t2)
    ensures '/' !in core && '<' !in core && '#' !in core
    ensures core == [] || (!IsWhitespace(core[0]) && !IsWhitespace(core[|core| - 1]))
  {
    TrimIsTrimmedAt(t);
    core := Trim(t);
    var lo :| TrimmedAt(core, t, lo);
    t1, t2 := SplitTrimmed(t, core, lo);
  }

  lemma SplitTrimmed(t: string, core: string, lo: int) returns (t1: string, t2: string)
    requires TrimmedAt(core, t, lo)
    requires '/' !in t && '<' !in t && '#' !in t
    ensures t == t1 + (core + t2) && Blank(t1) && Blank(t2)
    ensures '/' !in core && '<' !in core && '#' !in core
    ensures core == [] || (!IsWhitespace(core[0]) && !IsWhitespace(core[|core| - 1]))
  {
    t1, t2 := t[..lo], t[lo + |core|..];
    assert t == t1 + (core + t2);
    SliceKeepsAbsent(core, t, lo, '/');
    SliceKeepsAbsent(core, t, lo, '<');
    SliceKeepsAbsent(core, t, lo, '#');
  }

  lemma Regroup(w1: string, t1: string, core: string, t2: string, w2: string)
    ensures w1 + (t1 + (core + t2)) + w2 == (w1 + t1) + (core + (t2 + w2))
  {
  }

  lemma BlankAppend(a: string, b: string)
    requires Blank(a) && Blank(b)
    ensures Blank(a + b)
  {
    forall i | 0 <= i < |a + b| ensures IsWhitespace((a + b)[i]) {
      if i >= |a| { assert (a + b)[i] == b[i - |a|]; }
    }
  }

  /** What `EdgeWhitespaceIgnored` states, for a text already without edge whitespace. */
  lemma CoreEdgesIgnored(whole: string, p: string, core: string, q: string, languageId: string)
    requires whole == p + (core + q)
    requires Blank(p) && Blank(q)
    requires '/' !in core && '<' !in core && '#' !in core
    requires core == [] || (!IsWhitespace(core[0]) && !IsWhitespace(core[|core| - 1]))
    ensures NormalizeAndCleanText(whole, languageId) == NormalizeAndCleanText(core, languageId)
  {
    var style := CommentStyleOf(languageId);
    NoMarkersAround(p, core, q);
    StripWithoutMarkers(whole, style);
    StripWithoutMarkers(core, style);
    TrimCollapseEdges(p, core, q);
  }

  lemma NoMarkersAround(p: string, core: string, q: string)
    requires Blank(p) && Blank(q)
    requires '/' !in core && '<' !in core && '#' !in core
    ensures var whole := p + (core + q); '/' !in whole && '<' !in whole && '#' !in whole
  {
    forall c | c in p + (core + q) ensures c != '/' && c != '<' && c != '#' {
      if c in p {
        var i :| 0 <= i < |p| && p[i] == c;
      } else if c in q {
        var i :| 0 <= i < |q| && q[i] == c;
      }
    }
  }

  /** Collapsing then trimming ignores blank text around a text without edge whitespace. */
  lemma TrimCollapseEdges(p: string, core: string, q: string)
    requires Blank(p) && Blank(q)
    requires core == [] || (!IsWhitespace(core[0]) && !IsWhitespace(core[|core| - 1]))
    ensures Trim(CollapseWhitespace(p + (core + q))) == Trim(CollapseWhitespace(core))
  {
    if core == [] {
      assert p + (core + q) == p + q;
      TrimCollapseBlank(p, q);
    } else {
      TrimCollapseCore(p, core, q);
    }
  }

  lemma TrimCollapseBlank(p: string, q: string)
    requires Blank(p) && Blank(q)
    ensures Trim(CollapseWhitespace(p + q)) == [] == Trim(CollapseWhitespace([]))
  {
    BlankAppend(p, q);
    BlankCollapse(p + q);
    var c := CollapseWhitespace(p + q);
    assert Blank(c);
    assert Trim([]) == [] by { assert Blank([]); }
  }

  lemma TrimCollapseCore(p: string, core: string, q: string)
    requires Blank(p) && Blank(q)
    requires core != [] && !IsWhitespace(core[0]) && !IsWhitespace(core[|core| - 1])
    ensures Trim(CollapseWhitespace(p + (core + q))) == CollapseWhitespace(core) == Trim(CollapseWhitespace(core))
  {
    CollapseAround(p, core, q);
    BlankCollapse(p);
    BlankCollapse(q);
    CollapseKeepsLast(core);
    TrimPadded(CollapseWhitespace(p), CollapseWhitespace(core), CollapseWhitespace(q));
    TrimUnpadded(CollapseWhitespace(core));
  }

  /** Around a text without edge whitespace, collapsing works on the three parts separately. */
  lemma CollapseAround(p: string, core: string, q: string)
    requires Blank(p)
    requires core != [] && !IsWhitespace(core[0]) && !IsWhitespace(core[|core| - 1])
    ensures CollapseWhitespace(p + (core + q))
         == CollapseWhitespace(p) + (CollapseWhitespace(core) + CollapseWhitespace(q))
  {
    assert (core + q)[0] == core[0];
    CollapseAppend(core, q);
    CollapseBlankPrefix(p, core + q);
  }

  /** A blank prefix before a word collapses on its own. */
  lemma CollapseBlankPrefix(p: string, b: string)
    requires Blank(p)
    requires b == [] || !IsWhitespace(b[0])
    ensures CollapseWhitespace(p + b) == CollapseWhitespace(p) + CollapseWhitespace(b)
  {
    BlankCollapse(p);
    if p != [] {
      CollapseRun(p, b);
    } else {
      assert p + b == b;
    }
  }

  /** Trimming drops at most one space on each side of a text without edge whitespace. */
  lemma TrimPadded(pc: string, x: string, qc: string)
    requires pc == [] || pc == [' ']
    requires qc == [] || qc == [' ']
    requires x != [] && !IsWhitespace(x[0]) && !IsWhitespace(x[|x| - 1])
    ensures Trim(pc + (x + qc)) == x
  {
    PaddedTrimmedAt(pc, x, qc);
    TrimUnique(pc + (x + qc), x, |pc|);
  }

  /** A text without edge whitespace is its own trim. */
  lemma TrimUnpadded(x: string)
    requires x != [] && !IsWhitespace(x[0]) && !IsWhitespace(x[|x| - 1])
    ensures Trim(x) == x
  {
    PaddedTrimmedAt([], x, []);
    assert [] + (x + []) == x;
    TrimUnique(x, x, 0);
  }

  lemma PaddedTrimmedAt(pc: string, x: string, qc: string)
    requires pc == [] || pc == [' ']
    requires qc == [] || qc == [' ']
    requires x != [] && !IsWhitespace(x[0]) && !IsWhitespace(x[|x| - 1])
    ensures TrimmedAt(x, pc + (x + qc), |pc|)
  {
    var whole := pc + (x + qc);
    assert whole[|pc|..|pc| + |x|] == x;
  }

  /** A blank text collapses to nothing or to a single space. */
  lemma BlankCollapse(w: string)
    requires Blank(w)
    ensures CollapseWhitespace(w) == if w == [] then [] else [' ']
  {
    if w != [] {
      CollapseRun(w, []);
      assert w + [] == w;
    }
  }

  /** `s` ends in a non-whitespace character. */
  predicate EndsInWord(s: string) {
    s != [] && !IsWhitespace(s[|s| - 1])
  }

  /** Collapsing keeps a final non-whitespace character at the end. */
  lemma {:induction false} CollapseKeepsLast(s: string)
    requires EndsInWord(s)
    ensures EndsInWord(CollapseWhitespace(s))
    decreases |s|
  {
    if IsWhitespace(s[0]) {
      var t := TrimStart(s);
      TrimStartKeepsLast(s);
      assert t != s by { assert s[0] == s[|s| - |s|..][0]; }
      CollapseRunStep(s);
      CollapseKeepsLast(t);
      EndsInWordPrepend([' '], CollapseWhitespace(t));
    } else if |s| > 1 {
      CollapseCharStep(s);
      assert s[1..][|s| - 2] == s[|s| - 1];
      CollapseKeepsLast(s[1..]);
      EndsInWordPrepend([s[0]], CollapseWhitespace(s[1..]));
    } else {
      CollapseCharStep(s);
    }
  }

  lemma EndsInWordPrepend(h: string, x: string)
    requires EndsInWord(x)
    ensures EndsInWord(h + x)
  {
    assert (h + x)[|h + x| - 1] == x[|x| - 1];
  }

  /**
   * Leading, trailing and inner whitespace are all ignored:
   * `"  a,   b\n"` and `"a, b"` normalize to `"a, b"` under every language id.
   */
  lemma ExampleWhitespaceIgnored(languageId: string)
    ensures NormalizeAndCleanText("  a,   b\n", languageId) == NormalizeAndCleanText("a, b", languageId) == "a, b"
  {
    ExampleEdgesIgnored(languageId);
    ExampleRunIgnored(languageId);
    ExampleNormalized(languageId);
  }

  lemma ExampleEdgesIgnored(languageId: string)
    ensures NormalizeAndCleanText("  a,   b\n", languageId) == NormalizeAndCleanText("a,   b", languageId)
  {
    assert "  a,   b\n" == "  " + "a,   b" + "\n";
    EdgeWhitespaceIgnored("  ", "a,   b", "\n", languageId);
  }

  lemma ExampleRunIgnored(languageId: string)
    ensures NormalizeAndCleanText("a,   b", languageId) == NormalizeAndCleanText("a, b", languageId)
  {
    assert "a,   b" == "a," + "   " + "b" && "a, b" == "a," + " " + "b";
    WhitespaceRunIgnored("a,", "   ", " ", "b", languageId);
  }

  lemma ExampleNormalized(languageId: string)
    ensures NormalizeAndCleanText("a, b", languageId) == "a, b"
  {
    NormalizedIsFixedPoint("a, b", languageId);
  }

  /** A whitespace run followed by a word collapses to one space before that word. */
  lemma CollapseRun(w: string, b: string)
    requires w != [] && forall i :: 0 <= i < |w| ==> IsWhitespace(w[i])
    requires b == [] || !IsWhitespace(b[0])
    ensures CollapseWhitespace(w + b) == [' '] + CollapseWhitespace(b)
  {
    TrimStartPastRun(w, b);
  }

  lemma {:induction false} TrimStartPastRun(w: string, b: string)
    requires forall i :: 0 <= i < |w| ==> IsWhitespace(w[i])
    requires b == [] || !IsWhitespace(b[0])
    ensures TrimStart(w + b) == b
    decreases |w|
  {
    if w == [] {
      assert w + b == b;
    } else {
      assert (w + b)[0] == w[0];
      assert (w + b)[1..] == w[1..] + b;
      TrimStartPastRun(w[1..], b);
    }
  }

  /** Trimming the start of a text that holds a word does not reach what follows it. */
  lemma {:induction false} TrimStartAppend(a: string, c: string)
    requires exists i :: 0 <= i < |a| && !IsWhitespace(a[i])
    ensures TrimStart(a + c) == TrimStart(a) + c
    decreases |a|
  {
    assert (a + c)[0] == a[0];
    if IsWhitespace(a[0]) {
      assert (a + c)[1..] == a[1..] + c;
      var i :| 0 <= i < |a| && !IsWhitespace(a[i]);
      assert a[1..][i - 1] == a[i];
      TrimStartAppend(a[1..], c);
    }
  }

  /** Collapsing distributes over a split just after a non-whitespace character. */
  lemma {:induction false} CollapseAppend(a: string, c: string)
    requires a == [] || !IsWhitespace(a[|a| - 1])
    ensures CollapseWhitespace(a + c) == CollapseWhitespace(a) + CollapseWhitespace(c)
    decreases |a|, 1
  {
    if a == [] {
      assert a + c == c;
    } else if IsWhitespace(a[0]) {
      CollapseAppendRun(a, c);
    } else {
      CollapseAppendChar(a, c);
    }
  }

  lemma {:induction false} CollapseAppendRun(a: string, c: string)
    requires a != [] && IsWhitespace(a[0]) && !IsWhitespace(a[|a| - 1])
    ensures CollapseWhitespace(a + c) == CollapseWhitespace(a) + CollapseWhitespace(c)
    decreases |a|, 0
  {
    var t := TrimStart(a);
    TrimStartKeepsLast(a);
    CollapseAppend(t, c);
    CollapseRunStep(a);
    CollapseRunStepAppend(a, c);
    PrefixDistributes([' '], CollapseWhitespace(a + c), CollapseWhitespace(a), CollapseWhitespace(c),
                      CollapseWhitespace(t + c), CollapseWhitespace(t));
  }

  lemma {:induction false} CollapseAppendChar(a: string, c: string)
    requires a != [] && !IsWhitespace(a[0]) && !IsWhitespace(a[|a| - 1])
    ensures CollapseWhitespace(a + c) == CollapseWhitespace(a) + CollapseWhitespace(c)
    decreases |a|, 0
  {
    var t := a[1..];
    assert t == [] || t[|t| - 1] == a[|a| - 1];
    CollapseAppend(t, c);
    CollapseCharStep(a);
    CollapseCharStepAppend(a, c);
    PrefixDistributes([a[0]], CollapseWhitespace(a + c), CollapseWhitespace(a), CollapseWhitespace(c),
                      CollapseWhitespace(t + c), CollapseWhitespace(t));
  }

  /** Trimming the start of a text that ends in a word keeps that last character. */
  lemma TrimStartKeepsLast(a: string)
    requires a != [] && !IsWhitespace(a[|a| - 1])
    ensures TrimStart(a) != [] && TrimStart(a)[|TrimStart(a)| - 1] == a[|a| - 1]
  {
    var t := TrimStart(a);
    assert t == a[|a| - |t|..];
  }

  lemma CollapseRunStepAppend(a: string, c: string)
    requires a != [] && IsWhitespace(a[0]) && !IsWhitespace(a[|a| - 1])
    ensures CollapseWhitespace(a + c) == [' '] + CollapseWhitespace(TrimStart(a) + c)
  {
    assert !IsWhitespace(a[|a| - 1]);
    TrimStartAppend(a, c);
    assert (a + c)[0] == a[0];
    CollapseRunStep(a + c);
  }

  lemma CollapseCharStepAppend(a: string, c: string)
    requires a != [] && !IsWhitespace(a[0])
    ensures CollapseWhitespace(a + c) == [a[0]] + CollapseWhitespace(a[1..] + c)
  {
    assert (a + c)[0] == a[0];
    assert (a + c)[1..] == a[1..] + c;
    CollapseCharStep(a + c);
  }

  lemma PrefixDistributes(h: string, whole: string, part: string, rest: string, tailWhole: string, tailPart: string)
    requires whole == h + tailWhole && part == h + tailPart && tailWhole == tailPart + rest
    ensures whole == part + rest
  {
    assert h + (tailPart + rest) == (h + tailPart) + rest;
  }

  /** A leading whitespace run collapses to one space. */
  lemma CollapseRunStep(s: string)
    requires s != [] && IsWhitespace(s[0])
    ensures CollapseWhitespace(s) == [' '] + CollapseWhitespace(TrimStart(s))
  {}

  /** A leading non-whitespace character is kept. */
  lemma CollapseCharStep(s: string)
    requires s != [] && !IsWhitespace(s[0])
    ensures CollapseWhitespace(s) == [s[0]] + CollapseWhitespace(s[1..])
  {}

  /** With a hash-comment language, no `#` survives. */
  lemma {:induction false} HashStripRemovesAllHashes(s: string)
    ensures '#' !in StripComments(s, Hash)
    decreases |s|
  {
    if s != [] {
      if s[0] == '#' {
        HashStripRemovesAllHashes(s[LineEnd(s)..]);
      } else {
        HashStripRemovesAllHashes(s[1..]);
      }
    }
  }

  /** Collapsing keeps every non-whitespace character, in order, and adds none. */
  lemma {:induction false} CollapseKeepsNonWhitespace(s: string)
    ensures NonWhitespace(CollapseWhitespace(s)) == NonWhitespace(s)
    decreases |s|
  {
    if s != [] {
      if IsWhitespace(s[0]) {
        var rest := TrimStart(s);
        CollapseKeepsNonWhitespace(rest);
        NonWhitespaceOfWhitespacePrefix(s, |s| - |rest|);
        assert NonWhitespace([' '] + CollapseWhitespace(rest)) == NonWhitespace(CollapseWhitespace(rest));
      } else {
        CollapseKeepsNonWhitespace(s[1..]);
        assert NonWhitespace([s[0]] + CollapseWhitespace(s[1..]))
            == [s[0]] + NonWhitespace(CollapseWhitespace(s[1..]));
      }
    }
  }

  lemma {:induction false} NonWhitespaceOfWhitespacePrefix(s: string, n: nat)
    requires n <= |s|
    requires forall i :: 0 <= i < n ==> IsWhitespace(s[i])
    ensures NonWhitespace(s) == NonWhitespace(s[n..])
    decreases n
  {
    if n > 0 {
      NonWhitespaceOfWhitespacePrefix(s[1..], n - 1);
      assert s[1..][n - 1..] == s[n..];
    }
  }

  /** Trimming removes only whitespace. */
  lemma TrimKeepsNonWhitespace(s: string)
    ensures NonWhitespace(Trim(s)) == NonWhitespace(s)
  {
    var t := TrimStart(s);
    NonWhitespaceOfWhitespacePrefix(s, |s| - |t|);
    TrimEndKeepsNonWhitespace(t);
  }

  lemma TrimEndKeepsNonWhitespace(t: string)
    ensures NonWhitespace(TrimEnd(t)) == NonWhitespace(t)
  {
    var u := TrimEnd(t);
    var w := t[|u|..];
    assert t == u + w;
    NonWhitespaceAppend(u, w);
    forall i | 0 <= i < |w| ensures IsWhitespace(w[i]) {
      assert w[i] == t[|u| + i];
    }
    AllWhitespace(w);
  }

  lemma {:induction false} AllWhitespace(s: string)
    requires forall i :: 0 <= i < |s| ==> IsWhitespace(s[i])
    ensures NonWhitespace(s) == []
  {
    NonWhitespaceOfWhitespacePrefix(s, |s|);
    assert s[|s|..] == [];
  }

  /** For a language without a comment rule, the non-whitespace text passes through unchanged and in order. */
  lemma UnknownLanguageKeepsText(text: string, languageId: string)
    requires CommentStyleOf(languageId) == NoComments
    ensures NonWhitespace(NormalizeAndCleanText(text, languageId)) == NonWhitespace(text)
  {
    NoCommentsIsIdentity(text);
    CollapseKeepsNonWhitespace(text);
    TrimKeepsNonWhitespace(CollapseWhitespace(text));
  }

  lemma {:induction false} NoCommentsIsIdentity(s: string)
    ensures StripComments(s, NoComments) == s
    decreases |s|
  {
    if s != [] {
      NoCommentsIsIdentity(s[1..]);
      assert s == [s[0]] + s[1..];
    }
  }

  /**
   * A block comment is removed through its first closing delimiter, whatever
   * it holds (a line-comment marker included), under both C-like rules.
   */
  lemma BlockCommentRemoved(body: string, rest: string, style: CommentStyle)
    requires style == CLike || style == BlockOnly
    requires forall i :: !OccursAt(body, "*/", i)
    ensures StripComments("/*" + body + "*/" + rest, style) == StripComments(rest, style)
  {
    var s := "/*" + body + "*/" + rest;
    DelimitedAt(s, "/*", body, "*/", rest);
    assert DelimitedLength(s, "/*", "*/") == 4 + |body|;
    assert s[4 + |body|..] == rest;
  }

  /** A markup comment is removed through the first `-->` after its opening. */
  lemma MarkupCommentRemoved(body: string, rest: string)
    requires forall i :: !OccursAt(body, "-->", i)
    ensures StripComments("<!--" + body + "-->" + rest, Markup) == StripComments(rest, Markup)
  {
    var s := "<!--" + body + "-->" + rest;
    DelimitedAt(s, "<!--", body, "-->", rest);
    assert s[7 + |body|..] == rest;
  }

  /**
   * In `open + body + close + rest`, the first `close` at or after the end of
   * `open` is the one after `body`, when `body` holds none and `close` cannot
   * straddle the end of `body` (its first character differs from its last).
   */
  lemma DelimitedAt(s: string, open: string, body: string, close: string, rest: string)
    requires s == open + body + close + rest
    requires |close| >= 2 && close[0] != close[|close| - 1]
    requires close[0] == close[1] ==> |close| == 3 && close[1] != close[2]
    requires close == "*/" || close == "-->"
    requires forall i :: !OccursAt(body, close, i)
    ensures StartsWith(s, open)
    ensures DelimitedLength(s, open, close) == |open| + |body| + |close|
  {
    var e := |open| + |body|;
    assert s[..|open|] == open;
    assert s[e..e + |close|] == close;
    assert OccursAt(s, close, e);
    forall i | |open| <= i < e ensures !OccursAt(s, close, i) {
      NoCloseBefore(s, open, body, close, rest, i);
    }
    var j := IndexOf(s, close, |open|);
    IndexOfSpec(s, close, |open|);
    assert j == e;
  }

  /** No `close` starts inside `body`, not even one reaching into the real `close`. */
  lemma NoCloseBefore(s: string, open: string, body: string, close: string, rest: string, i: int)
    requires s == open + body + close + rest
    requires close == "*/" || close == "-->"
    requires forall i :: !OccursAt(body, close, i)
    requires |open| <= i < |open| + |body|
    ensures !OccursAt(s, close, i)
  {
    var e := |open| + |body|;
    assert s[e..e + |close|] == close;
    if i + |close| <= e {
      assert s[i..i + |close|] == body[i - |open|..i - |open| + |close|];
      assert !OccursAt(body, close, i - |open|);
    } else if close == "*/" {
      assert s[i..i + 2][1] == s[e] == '*';
    } else if i == e - 1 {
      assert s[i..i + 3][2] == s[e + 1] == '-';
    } else {
      assert s[i..i + 3][2] == s[e] == '-';
    }
  }

  /** A line comment runs to the end of its line; the line terminator stays. */
  lemma LineCommentRemoved(line: string, rest: string, style: CommentStyle)
    requires style == CLike
    requires forall i :: 0 <= i < |line| ==> !IsLineTerminator(line[i])
    requires rest == [] || IsLineTerminator(rest[0])
    ensures StripComments("//" + line + rest, style) == StripComments(rest, style)
  {
    var s := "//" + line + rest;
    assert s[..2] == "//";
    assert !StartsWith(s, "/*") by { assert s[1] == '/'; }
    LineEndAt(s, "//" + line, rest);
  }

  /** A hash comment runs to the end of its line; the line terminator stays. */
  lemma HashCommentRemoved(line: string, rest: string)
    requires forall i :: 0 <= i < |line| ==> !IsLineTerminator(line[i])
    requires rest == [] || IsLineTerminator(rest[0])
    ensures StripComments("#" + line + rest, Hash) == StripComments(rest, Hash)
  {
    var s := "#" + line + rest;
    assert s[0] == '#';
    LineEndAt(s, "#" + line, rest);
  }

  lemma {:induction false} LineEndAt(s: string, head: string, rest: string)
    requires s == head + rest
    requires forall i :: 0 <= i < |head| ==> !IsLineTerminator(head[i])
    requires rest == [] || IsLineTerminator(rest[0])
    ensures LineEnd(s) == |head| && s[|head|..] == rest
    decreases |head|
  {
    if head == [] {
      assert s == rest;
    } else {
      assert s[0] == head[0];
      assert s[1..] == head[1..] + rest;
      LineEndAt(s[1..], head[1..], rest);
    }
  }

  // ---------------------------------------------------------------------------
  // Line endings
  // ---------------------------------------------------------------------------

  /** `replace(/\r\n/g, '\n')`. */
  function ReplaceCrLf(s: string): (r: string)
    decreases |s|
  {
    if s == [] then []
    else if |s| >= 2 && s[0] == '\r' && s[1] == '\n' then ['\n'] + ReplaceCrLf(s[2..])
    else [s[0]] + ReplaceCrLf(s[1..])
  }

  /** `replace(/\r/g, '\n')`. */
  function ReplaceCr(s: string): (r: string)
    ensures |r| == |s|
    ensures forall i :: 0 <= i < |s| ==> r[i] == (if s[i] == '\r' then '\n' else s[i])
  {
    if s == [] then [] else [if s[0] == '\r' then '\n' else s[0]] + ReplaceCr(s[1..])
  }

  /** `normalizeText` (identical in src/textUtils.ts and src/extension.ts). */
  function NormalizeText(text: string, trimEdges: bool): (r: string)
    ensures '\r' !in r
  {
    var n := ReplaceCr(ReplaceCrLf(text));
    if trimEdges then
      TrimKeepsAbsent(n, '\r');
      Trim(n)
    else n
  }

  lemma TrimKeepsAbsent(n: string, c: char)
    requires c !in n
    ensures c !in Trim(n)
  {
    var t := Trim(n);
    var lo :| SliceAt(t, n, lo);
    SliceKeepsAbsent(t, n, lo, c);
  }

  lemma SliceKeepsAbsent(t: string, n: string, lo: int, c: char)
    requires SliceAt(t, n, lo) && c !in n
    ensures c !in t
  {
    forall i | 0 <= i < |t| ensures t[i] != c {
      assert t[i] == n[lo + i];
    }
  }

  lemma {:induction false} CrLfWithoutCr(s: string)
    requires '\r' !in s
    ensures ReplaceCrLf(s) == s && ReplaceCr(s) == s
    decreases |s|
  {
    if s != [] {
      assert s[0] != '\r';
      CrLfWithoutCr(s[1..]);
      assert s == [s[0]] + s[1..];
    }
  }

  /** One pass over the text, each CRLF pair or lone CR becoming one LF: what the two passes amount to. */
  function LineEndingsToLf(s: string): string
    decreases |s|
  {
    if s == [] then []
    else if s[0] == '\r' then
      ['\n'] + LineEndingsToLf(if |s| >= 2 && s[1] == '\n' then s[2..] else s[1..])
    else [s[0]] + LineEndingsToLf(s[1..])
  }

  /** The two replacements together turn each line ending into exactly one LF. */
  lemma {:induction false} TwoPassesAreOne(s: string)
    ensures ReplaceCr(ReplaceCrLf(s)) == LineEndingsToLf(s)
    decreases |s|
  {
    if s != [] {
      if |s| >= 2 && s[0] == '\r' && s[1] == '\n' {
        TwoPassesAreOne(s[2..]);
        assert ReplaceCr(['\n'] + ReplaceCrLf(s[2..])) == ['\n'] + ReplaceCr(ReplaceCrLf(s[2..]));
      } else {
        TwoPassesAreOne(s[1..]);
        assert ReplaceCr([s[0]] + ReplaceCrLf(s[1..])) == [if s[0] == '\r' then '\n' else s[0]] + ReplaceCr(ReplaceCrLf(s[1..]));
      }
    }
  }

  /** `normalizeText` when trimming: the LF-normalized text without its edge whitespace. */
  lemma NormalizeTextTrims(text: string)
    ensures NormalizeText(text, true) == Trim(LineEndingsToLf(text))
    ensures NormalizeText(text, false) == LineEndingsToLf(text)
  {
    TwoPassesAreOne(text);
  }

  /** Text without carriage returns passes through unchanged when the edges are kept. */
  lemma NormalizeTextWithoutCr(text: string)
    requires '\r' !in text
    ensures NormalizeText(text, false) == text
  {
    CrLfWithoutCr(text);
  }
}
