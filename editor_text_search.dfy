/**
 * The normalized-text search of the editor actions (`_performTextSearch` in
 * src/editorActions.ts): every occurrence of the normalized find text in the
 * normalized document, from left to right and overlapping ones included, is
 * mapped back to an approximate original range; ranges that do not map or
 * that were already recorded are skipped.
 */
module EditorTextSearch {
  import opened Syntax
  import opened JsStrings
  import opened TextUtils
  import opened ApproxRange

  /** Adds the mapped range unless it is missing or already recorded (`processedRanges.some(r => r.isEqual(range))`). */
  function Record(processed: seq<Range>, mapped: Option<Range>): seq<Range>
  {
    if mapped.Some? && mapped.value !in processed then processed + [mapped.value] else processed
  }

  /** Recording keeps what was recorded and adds the mapped range, if any. */
  lemma RecordContents(processed: seq<Range>, mapped: Option<Range>)
    ensures var r := Record(processed, mapped);
      (forall x :: x in r <==> x in processed || mapped == Some(x))
      && |processed| <= |r| && r[..|processed|] == processed
  {
  }

  /**
   * The ranges recorded by the search loop from normalized offset `from` on,
   * after `processed`; `mapping` sends a normalized offset to its original range.
   */
  function Scan(normDoc: string, target: string, mapping: int -> Option<Range>, from: int,
                processed: seq<Range>): seq<Range>
    requires target != [] && 0 <= from
    decreases |normDoc| + 1 - from
  {
    var m := IndexOf(normDoc, target, from);
    if m == -1 then processed
    else Scan(normDoc, target, mapping, m + 1, Record(processed, mapping(m)))
  }

  /** The mapping of the text search: normalized offsets back to the document. */
  function Mapping(doc: string, normDoc: string, trimmed: string): int -> Option<Range> {
    m => MapToOriginal(doc, |normDoc|, trimmed, m)
  }

  /** The ranges `_performTextSearch` reports, in order. */
  function TextSearch(doc: string, textToFind: string, languageId: string): seq<Range> {
    var trimmed := Trim(textToFind);
    SearchNormalized(doc, trimmed, NormalizeAndCleanText(trimmed, languageId), NormalizeAndCleanText(doc, languageId))
  }

  /**
   * The search once the trimmed find text and both normalized texts are
   * known: nothing when either normalized text is empty.
   */
  function SearchNormalized(doc: string, trimmed: string, target: string, normDoc: string): seq<Range> {
    if target == [] || normDoc == [] then []
    else Scan(normDoc, target, Mapping(doc, normDoc, trimmed), 0, [])
  }

  /** Each range tagged as a text-mode match. */
  function TextResults(ranges: seq<Range>): seq<MatchResult> {
    seq(|ranges|, i requires 0 <= i < |ranges| => MatchResult(ranges[i], Text))
  }

  /** The i-th result is the i-th range, tagged as a text match. */
  lemma TextResultsTagged(ranges: seq<Range>)
    ensures var r := TextResults(ranges);
      |r| == |ranges| && forall i :: 0 <= i < |r| ==> r[i] == MatchResult(ranges[i], Text)
  {
  }

  lemma TextResultsAppend(ranges: seq<Range>, x: Range)
    ensures TextResults(ranges + [x]) == TextResults(ranges) + [MatchResult(x, Text)]
  {
    var a, b := TextResults(ranges + [x]), TextResults(ranges) + [MatchResult(x, Text)];
    assert |a| == |b|;
    forall i | 0 <= i < |a| ensures a[i] == b[i] {
      if i < |ranges| {
        assert (ranges + [x])[i] == ranges[i];
      }
    }
  }

  /** `_performTextSearch` with the document's text, the find text and the language id. */
  method PerformTextSearch(doc: string, textToFind: string, languageId: string)
    returns (results: seq<MatchResult>)
    ensures results == TextResults(TextSearch(doc, textToFind, languageId))
  {
    var trimmed := Trim(textToFind);
    var target := NormalizeAndCleanText(trimmed, languageId);
    var normDoc := NormalizeAndCleanText(doc, languageId);
    assert TextSearch(doc, textToFind, languageId) == SearchNormalized(doc, trimmed, target, normDoc);
    results := SearchLoop(doc, trimmed, target, normDoc);
  }

  /** Records the range `mapped` unless it is missing or already recorded, in both lists. */
  method RecordMapped(processed: seq<Range>, results: seq<MatchResult>, mapped: Option<Range>)
    returns (processed': seq<Range>, results': seq<MatchResult>)
    requires results == TextResults(processed)
    ensures processed' == Record(processed, mapped)
    ensures results' == TextResults(processed')
  {
    processed', results' := processed, results;
    if mapped.Some? && mapped.value !in processed {
      TextResultsAppend(processed, mapped.value);
      processed' := processed + [mapped.value];
      results' := results + [MatchResult(mapped.value, Text)];
    }
  }

  /** The loop of `_performTextSearch` over the normalized document. */
  method SearchLoop(doc: string, trimmed: string, target: string, normDoc: string)
    returns (results: seq<MatchResult>)
    ensures results == TextResults(SearchNormalized(doc, trimmed, target, normDoc))
  {
    if target == [] || normDoc == [] {
      return [];
    }
    var mapping := Mapping(doc, normDoc, trimmed);
    var searchStart := 0;
    var processed: seq<Range> := [];
    results := [];
    var m := IndexOf(normDoc, target, searchStart);
    while m != -1
      invariant 0 <= searchStart <= |normDoc| + 1
      invariant m == IndexOf(normDoc, target, searchStart)
      invariant results == TextResults(processed)
      invariant Scan(normDoc, target, mapping, searchStart, processed) == Scan(normDoc, target, mapping, 0, [])
      decreases |normDoc| + 1 - searchStart
    {
      var mapped := MapToOriginal(doc, |normDoc|, trimmed, m);
      assert mapped == mapping(m);
      ScanStep(normDoc, target, mapping, searchStart, processed, m);
      processed, results := RecordMapped(processed, results, mapped);
      searchStart := m + 1;
      m := IndexOf(normDoc, target, searchStart);
    }
    ScanStep(normDoc, target, mapping, searchStart, processed, m);
  }

  predicate Distinct(rs: seq<Range>) {
    forall i, j :: 0 <= i < j < |rs| ==> rs[i] != rs[j]
  }

  lemma RecordDistinct(processed: seq<Range>, mapped: Option<Range>)
    requires Distinct(processed)
    ensures Distinct(Record(processed, mapped))
  {
  }

  /** The search never reports the same range twice, and keeps what was recorded before. */
  lemma {:induction false} ScanDistinct(normDoc: string, target: string, mapping: int -> Option<Range>, from: int,
                                        processed: seq<Range>)
    requires target != [] && 0 <= from
    requires Distinct(processed)
    ensures Distinct(Scan(normDoc, target, mapping, from, processed))
    decreases |normDoc| + 1 - from
  {
    var m := IndexOf(normDoc, target, from);
    ScanStep(normDoc, target, mapping, from, processed, m);
    if m != -1 {
      var next := Record(processed, mapping(m));
      RecordDistinct(processed, mapping(m));
      ScanDistinct(normDoc, target, mapping, m + 1, next);
    }
  }

  /** Every reported range lies inside the document. */
  lemma {:induction false} ScanInDocument(docLength: nat, normDoc: string, target: string, mapping: int -> Option<Range>,
                                          from: int, processed: seq<Range>)
    requires target != [] && 0 <= from
    requires forall m, x :: mapping(m) == Some(x) ==> InDocument(x, docLength)
    requires forall x :: x in processed ==> InDocument(x, docLength)
    ensures forall x :: x in Scan(normDoc, target, mapping, from, processed) ==> InDocument(x, docLength)
    decreases |normDoc| + 1 - from
  {
    var m := IndexOf(normDoc, target, from);
    ScanStep(normDoc, target, mapping, from, processed, m);
    if m != -1 {
      RecordContents(processed, mapping(m));
      ScanInDocument(docLength, normDoc, target, mapping, m + 1, Record(processed, mapping(m)));
    }
  }

  /** `x` is what the occurrence of the normalized find text at `m`, from `from` on, maps to. */
  predicate MappedOccurrence(normDoc: string, target: string, mapping: int -> Option<Range>, from: int, m: int, x: Range) {
    from <= m && OccursAt(normDoc, target, m) && mapping(m) == Some(x)
  }

  /** One step of the loop: it stops at -1, otherwise the first occurrence at or after `from` is recorded. */
  lemma ScanStep(normDoc: string, target: string, mapping: int -> Option<Range>, from: int, processed: seq<Range>,
                 m: int)
    requires target != [] && 0 <= from
    requires m == IndexOf(normDoc, target, from)
    ensures Scan(normDoc, target, mapping, from, processed)
      == if m == -1 then processed else Scan(normDoc, target, mapping, m + 1, Record(processed, mapping(m)))
  {
  }

  /** Every recorded range was recorded before or is mapped from an occurrence at or after `from`. */
  lemma {:induction false} ScanSound(normDoc: string, target: string, mapping: int -> Option<Range>, from: int,
                                     processed: seq<Range>, x: Range)
    requires target != [] && 0 <= from
    requires x in Scan(normDoc, target, mapping, from, processed)
    ensures x in processed || exists m :: MappedOccurrence(normDoc, target, mapping, from, m, x)
    decreases |normDoc| + 1 - from
  {
    var m0 := IndexOf(normDoc, target, from);
    ScanStep(normDoc, target, mapping, from, processed, m0);
    if m0 != -1 {
      IndexOfSpec(normDoc, target, from);
      var next := Record(processed, mapping(m0));
      RecordContents(processed, mapping(m0));
      ScanSound(normDoc, target, mapping, m0 + 1, next, x);
      if x !in processed {
        if mapping(m0) == Some(x) {
          assert MappedOccurrence(normDoc, target, mapping, from, m0, x);
        } else {
          assert x !in next;
          var m :| MappedOccurrence(normDoc, target, mapping, m0 + 1, m, x);
          assert MappedOccurrence(normDoc, target, mapping, from, m, x);
        }
      }
    }
  }

  /** The search keeps what was recorded before. */
  lemma {:induction false} ScanKeeps(normDoc: string, target: string, mapping: int -> Option<Range>, from: int,
                                     processed: seq<Range>, x: Range)
    requires target != [] && 0 <= from
    requires x in processed
    ensures x in Scan(normDoc, target, mapping, from, processed)
    decreases |normDoc| + 1 - from
  {
    var m0 := IndexOf(normDoc, target, from);
    ScanStep(normDoc, target, mapping, from, processed, m0);
    if m0 != -1 {
      RecordContents(processed, mapping(m0));
      ScanKeeps(normDoc, target, mapping, m0 + 1, Record(processed, mapping(m0)), x);
    }
  }

  /** Every occurrence at or after `from` that maps has its range recorded. */
  lemma {:induction false} ScanComplete(normDoc: string, target: string, mapping: int -> Option<Range>, from: int,
                                        processed: seq<Range>, m: int, x: Range)
    requires target != [] && 0 <= from
    requires MappedOccurrence(normDoc, target, mapping, from, m, x)
    ensures x in Scan(normDoc, target, mapping, from, processed)
    decreases |normDoc| + 1 - from
  {
    var m0 := IndexOf(normDoc, target, from);
    IndexOfSpec(normDoc, target, from);
    assert ClampIndex(from, |normDoc|) <= m;
    assert m0 != -1;
    ScanStep(normDoc, target, mapping, from, processed, m0);
    var next := Record(processed, mapping(m0));
    RecordContents(processed, mapping(m0));
    if m == m0 {
      ScanKeeps(normDoc, target, mapping, m0 + 1, next, x);
    } else {
      assert from <= m0 < m;
      ScanComplete(normDoc, target, mapping, m0 + 1, next, m, x);
    }
  }

  /**
   * A range is recorded by the loop exactly when it was recorded before or
   * some occurrence of the normalized find text at or after `from` maps to it.
   */
  lemma ScanMembership(normDoc: string, target: string, mapping: int -> Option<Range>, from: int,
                       processed: seq<Range>, x: Range)
    requires target != [] && 0 <= from
    ensures x in Scan(normDoc, target, mapping, from, processed)
        <==> x in processed || exists m :: MappedOccurrence(normDoc, target, mapping, from, m, x)
  {
    if x in Scan(normDoc, target, mapping, from, processed) {
      ScanSound(normDoc, target, mapping, from, processed, x);
    }
    if x in processed {
      ScanKeeps(normDoc, target, mapping, from, processed, x);
    }
    if exists m :: MappedOccurrence(normDoc, target, mapping, from, m, x) {
      var m :| MappedOccurrence(normDoc, target, mapping, from, m, x);
      ScanComplete(normDoc, target, mapping, from, processed, m, x);
    }
  }

  /** `x` is the original range of an occurrence of `target` at `m` in the normalized document. */
  predicate FoundAt(doc: string, normDoc: string, target: string, trimmed: string, m: int, x: Range) {
    0 <= m && OccursAt(normDoc, target, m) && MapToOriginal(doc, |normDoc|, trimmed, m) == Some(x)
  }

  /**
   * Soundness and completeness of the text search: a range is reported
   * exactly when both normalized texts are non-empty and an occurrence of the
   * normalized find text in the normalized document maps to it.
   */
  lemma TextSearchReports(doc: string, textToFind: string, languageId: string, x: Range)
    ensures var trimmed := Trim(textToFind);
      var target := NormalizeAndCleanText(trimmed, languageId);
      var normDoc := NormalizeAndCleanText(doc, languageId);
      (x in TextSearch(doc, textToFind, languageId)
       <==> target != [] && normDoc != [] && exists m :: FoundAt(doc, normDoc, target, trimmed, m, x))
  {
    var trimmed := Trim(textToFind);
    SearchNormalizedReports(doc, trimmed, NormalizeAndCleanText(trimmed, languageId), NormalizeAndCleanText(doc, languageId), x);
  }

  lemma SearchNormalizedReports(doc: string, trimmed: string, target: string, normDoc: string, x: Range)
    ensures x in SearchNormalized(doc, trimmed, target, normDoc)
      <==> target != [] && normDoc != [] && exists m :: FoundAt(doc, normDoc, target, trimmed, m, x)
  {
    if target != [] && normDoc != [] {
      var mapping := Mapping(doc, normDoc, trimmed);
      ScanMembership(normDoc, target, mapping, 0, [], x);
      forall m ensures MappedOccurrence(normDoc, target, mapping, 0, m, x) <==> FoundAt(doc, normDoc, target, trimmed, m, x) {
        assert mapping(m) == MapToOriginal(doc, |normDoc|, trimmed, m);
      }
    }
  }

  /** Reported ranges are distinct and inside the document. */
  lemma TextSearchWellFormed(doc: string, textToFind: string, languageId: string)
    ensures Distinct(TextSearch(doc, textToFind, languageId))
    ensures forall x :: x in TextSearch(doc, textToFind, languageId) ==> InDocument(x, |doc|)
  {
    var trimmed := Trim(textToFind);
    SearchNormalizedWellFormed(doc, trimmed, NormalizeAndCleanText(trimmed, languageId), NormalizeAndCleanText(doc, languageId));
  }

  lemma SearchNormalizedWellFormed(doc: string, trimmed: string, target: string, normDoc: string)
    ensures Distinct(SearchNormalized(doc, trimmed, target, normDoc))
    ensures forall x :: x in SearchNormalized(doc, trimmed, target, normDoc) ==> InDocument(x, |doc|)
  {
    if target != [] && normDoc != [] {
      var mapping := Mapping(doc, normDoc, trimmed);
      ScanDistinct(normDoc, target, mapping, 0, []);
      forall m, x | mapping(m) == Some(x) ensures InDocument(x, |doc|) {
        assert MapToOriginal(doc, |normDoc|, trimmed, m) == Some(x);
      }
      ScanInDocument(|doc|, normDoc, target, mapping, 0, []);
    }
  }

  /**
   * Every reported range starts where the find text's first significant line
   * occurs in the document, and ends after the find text's length or at the
   * end of an occurrence of its last significant line.
   */
  lemma TextSearchAnchored(doc: string, textToFind: string, languageId: string, x: Range)
    requires x in TextSearch(doc, textToFind, languageId)
    ensures var trimmed := Trim(textToFind);
      Anchored(doc, FirstLine(trimmed), LastLine(trimmed), |trimmed|, x)
  {
    var trimmed := Trim(textToFind);
    var target := NormalizeAndCleanText(trimmed, languageId);
    var normDoc := NormalizeAndCleanText(doc, languageId);
    TextSearchReports(doc, textToFind, languageId, x);
    var m :| FoundAt(doc, normDoc, target, trimmed, m, x);
    FoundWithinBounds(doc, normDoc, target, trimmed, m, x);
  }

  /** The anchoring of one mapped occurrence. */
  lemma FoundWithinBounds(doc: string, normDoc: string, target: string, trimmed: string, m: int, x: Range)
    requires target != [] && FoundAt(doc, normDoc, target, trimmed, m, x)
    ensures Anchored(doc, FirstLine(trimmed), LastLine(trimmed), |trimmed|, x)
  {
    assert m + |target| <= |normDoc|;
    MappedRangeIsAnchored(doc, |normDoc|, trimmed, m);
  }

  /** A find text that normalizes to nothing (blank, or only comments) finds nothing. */
  lemma EmptyTargetFindsNothing(doc: string, textToFind: string, languageId: string)
    requires NormalizeAndCleanText(Trim(textToFind), languageId) == []
    ensures TextSearch(doc, textToFind, languageId) == []
  {
  }
}
