/**
 * A concrete input on which the text search of `textSearch.ts`, as written,
 * reports a range for a find text that the normalized document does not
 * contain, while the corrected loop reports nothing.
 */
module FuzzyFinding {
  import opened Syntax
  import opened JsStrings
  import opened TextUtils
  import opened ApproxRange
  import opened EditorTextSearch
  import opened FuzzyTextSearch

  /*
   * The loop as written maps -1 after the last match. For the document `ab`
   * and the find text `a` newline `b`, the normalized find text `a b` does not
   * occur in the normalized document `ab`; yet -1 scales to an offset whose
   * window covers the whole document, where both lines of the find text occur.
   * The lemmas below take the two letters as parameters, which keeps each
   * proof to a few unfoldings.
   */

  /** A letter that is neither whitespace nor the start of a comment. */
  predicate Plain(c: char) {
    !IsWhitespace(c) && c != '/' && c != '<' && c != '#'
  }

  lemma TrimOfLetter(c: char)
    requires !IsWhitespace(c)
    ensures Trim([c]) == [c]
  {
    assert TrimStart([c]) == [c];
    assert TrimEnd([c]) == [c];
  }

  /** Two plain letters side by side are their own normalization, in every language. */
  lemma WordNormalizes(a: char, b: char, languageId: string)
    requires Plain(a) && Plain(b)
    ensures NormalizeAndCleanText([a, b], languageId) == [a, b]
  {
    assert IsNormalized([a, b]);
    NormalizedIsFixedPoint([a, b], languageId);
  }

  lemma TwoLinesCollapse(a: char, b: char)
    requires !IsWhitespace(a) && !IsWhitespace(b)
    ensures CollapseWhitespace([a, '\n', b]) == [a, ' ', b]
  {
    assert [a, '\n', b] == [a] + (['\n'] + [b]);
    CollapseAppend([a], ['\n'] + [b]);
    CollapseRun(['\n'], [b]);
    assert CollapseWhitespace([a]) == [a] by { assert [a][1..] == []; }
    assert CollapseWhitespace([b]) == [b] by { assert [b][1..] == []; }
  }

  lemma TwoLinesTrim(a: char, b: char, sep: char)
    requires !IsWhitespace(a) && !IsWhitespace(b)
    ensures Trim([a, sep, b]) == [a, sep, b]
  {
    assert TrimStart([a, sep, b]) == [a, sep, b];
    assert TrimEnd([a, sep, b]) == [a, sep, b];
  }

  /** Letters on two lines normalize to the two letters with one space between. */
  lemma TwoLinesNormalize(a: char, b: char, languageId: string)
    requires Plain(a) && Plain(b)
    ensures NormalizeAndCleanText([a, '\n', b], languageId) == [a, ' ', b]
  {
    StripWithoutMarkers([a, '\n', b], CommentStyleOf(languageId));
    TwoLinesCollapse(a, b);
    TwoLinesTrim(a, b, ' ');
  }

  lemma TwoLinesSplit(a: char, b: char)
    requires a != '\n' && b != '\n'
    ensures SplitLines([a, '\n', b]) == [[a], [b]]
  {
    var t := [a, '\n', b];
    assert SplitLinesFrom([], [b]) == [[b]];
    assert SplitLinesFrom([b], []) == [[b]] by { assert [b][1..] == [] && [] + [b] == [b]; }
    assert SplitLinesFrom(['\n', b], [a]) == [[a], [b]] by { assert ['\n', b][1..] == [b]; }
    assert SplitLinesFrom(t, []) == [[a], [b]] by { assert t[1..] == ['\n', b] && [] + [a] == [a]; }
  }

  lemma FirstLineIsFirst(t: string)
    requires !Blank(SplitLines(t)[0])
    ensures FirstLine(t) == Trim(SplitLines(t)[0])
  {}

  /** The first line of the two-line text is its first letter. */
  lemma TwoLinesFirst(a: char, b: char)
    requires !IsWhitespace(a) && !IsWhitespace(b)
    ensures FirstLine([a, '\n', b]) == [a]
  {
    TrimOfLetter(a);
    TwoLinesSplit(a, b);
    assert !Blank([a]) by { assert [a][0] == a; }
    FirstLineIsFirst([a, '\n', b]);
  }

  /** The last line of the two-line text is its second letter. */
  lemma TwoLinesLast(a: char, b: char)
    requires !IsWhitespace(a) && !IsWhitespace(b)
    ensures LastLine([a, '\n', b]) == [b]
  {
    TrimOfLetter(b);
    TwoLinesSplit(a, b);
    assert !Blank([b]) by { assert [b][0] == b; }
  }

  /** The window around the scaled offset -1 covers the word, which starts with `a` and ends with `b`. */
  lemma WordRangeNear(a: char, b: char)
    ensures RangeNear([a, b], [a], [b], 3, -1) == Some(Range(0, 2))
  {
    var doc := [a, b];
    assert WindowStart(-1, 3) == 0;
    assert WindowEnd(2, -1, 3) == 2;
    assert Substring(doc, 0, 2) == doc;
    assert OccursAt(doc, [a], 0) by { assert doc[0..1] == [a]; }
    assert IndexOf(doc, [a], 0) == 0;
    assert StartNear(doc, [a], 3, -1) == Some(0);
    assert OccursAt(doc, [b], 1) by { assert doc[1..2] == [b]; }
    assert LastIndexOf(doc, [b]) == 1;
    assert EndGuess(doc, [b], 3, 0) == 2;
    assert OriginalEnd(doc, [b], 3, 0) == 2;
  }

  /** Mapping the offset -1 back into the word gives the whole word. */
  lemma MinusOneMapsToWord(a: char, b: char)
    requires !IsWhitespace(a) && !IsWhitespace(b)
    ensures MapToOriginal([a, b], 2, [a, '\n', b], -1) == Some(Range(0, 2))
  {
    var doc, text := [a, b], [a, '\n', b];
    TwoLinesFirst(a, b);
    TwoLinesLast(a, b);
    MapThroughLines(doc, 2, text, -1, [a], [b]);
    MinusOneScales();
    WordRangeNear(a, b);
  }

  lemma MinusOneScales()
    ensures ApproxIndex(-1, 2, 2) == -1
  {
    assert (2 * -1 * 2 + 2) / (2 * 2) == -1;
  }

  lemma MapThroughLines(doc: string, normLength: nat, trimmed: string, m: int, first: string, last: string)
    requires FirstLine(trimmed) == first && LastLine(trimmed) == last
    ensures MapToOriginal(doc, normLength, trimmed, m) == RangeNear(doc, first, last, |trimmed|, ApproxIndex(m, |doc|, normLength))
  {}

  /**
   * As written, searching a two-letter word for its two letters on separate
   * lines reports the whole word, although the normalized document holds no
   * occurrence of the normalized find text; corrected, it reports nothing.
   */
  lemma MissingTextReported(a: char, b: char, languageId: string, fuzzy: FuzzyOracle)
    requires Plain(a) && Plain(b)
    requires FuzzyWithin(fuzzy, |NormalizeAndCleanText([a, b], languageId)|)
    ensures SearchAsWritten([a, b], [a, '\n', b], languageId, fuzzy, true) == [Range(0, 2)]
    ensures SearchCorrected([a, b], [a, '\n', b], languageId, fuzzy, true) == []
  {
    var doc, text, target := [a, b], [a, '\n', b], [a, ' ', b];
    MissingTextNormalized(a, b, languageId);
    MinusOneMapsToWord(a, b);
    var mapping := Mapping(doc, doc, text);
    assert mapping(-1) == Some(Range(0, 2));
    ScansOfLongerTarget(a, b, mapping, fuzzy);
    SearchesThroughParts(doc, text, languageId, fuzzy, true, text, target, doc);
  }

  /**
   * In that search the document normalizes to itself and the find text to the
   * two letters around one space, which the document does not contain.
   */
  lemma MissingTextNormalized(a: char, b: char, languageId: string)
    requires Plain(a) && Plain(b)
    ensures NormalizeAndCleanText([a, b], languageId) == [a, b]
    ensures Trim([a, '\n', b]) == [a, '\n', b]
    ensures NormalizeAndCleanText([a, '\n', b], languageId) == [a, ' ', b]
    ensures forall i :: !OccursAt([a, b], [a, ' ', b], i)
  {
    WordNormalizes(a, b, languageId);
    TwoLinesTrim(a, b, '\n');
    TwoLinesNormalize(a, b, languageId);
  }

  /**
   * Both loops over a two-character normalized document and a three-character
   * normalized find text: neither ever finds an offset, but the loop as
   * written maps the final -1.
   */
  lemma ScansOfLongerTarget(a: char, b: char, mapping: int -> Option<Range>, fuzzy: FuzzyOracle)
    requires FuzzyWithin(fuzzy, 2)
    requires mapping(-1) == Some(Range(0, 2))
    ensures ScanAsWritten([a, b], [a, ' ', b], mapping, fuzzy, true, 0, []) == [Range(0, 2)]
    ensures ScanCorrected([a, b], [a, ' ', b], mapping, fuzzy, true, 0, []) == []
  {
    var doc, target := [a, b], [a, ' ', b];
    assert IndexOf(doc, target, 0) == -1;
    assert NextMatch(doc, target, fuzzy, true, 0) == -1;
    AsWrittenStep(doc, target, mapping, fuzzy, true, 0, [], -1);
    CorrectedStep(doc, target, mapping, fuzzy, true, 0, [], -1);
  }
}
