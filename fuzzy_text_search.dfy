/**
 * The standalone text search of src/textSearch.ts (`performTextSearch`): the
 * same normalized-text scan and range mapping as the editor actions, with two
 * differences. When no exact occurrence is left and the search is not a
 * fallback, a fuzzy matcher may offer a normalized offset instead; and the
 * loop maps the current offset before it tests for the end, so the final
 * -1 is mapped as well.
 *
 * The fuzzy matcher is an outside library; here it is an oracle from the
 * search start to the offset of the best-rated word, or None when no word
 * reaches the configured threshold.
 */
module FuzzyTextSearch {
  import opened Syntax
  import opened JsStrings
  import opened TextUtils
  import opened ApproxRange
  import opened EditorTextSearch

  /**
   * The fuzzy matches: for each search start at which the best-rated word
   * reaches the threshold, the normalized offset of that word.
   */
  type FuzzyOracle = int -> Option<int>

  /**
   * A fuzzy match offered at start `s` lies between `s` and the end of the
   * normalized document: it is `s` plus an index into the rest of it.
   */
  ghost predicate FuzzyWithin(fuzzy: FuzzyOracle, normLength: nat) {
    forall s :: fuzzy(s).Some? ==> s <= fuzzy(s).value <= normLength
  }

  /** The offset one iteration of the loop goes on with (`matchIndex`), or -1. */
  function NextMatch(normDoc: string, target: string, fuzzy: FuzzyOracle, isFallback: bool, from: int): (m: int)
    requires target != [] && 0 <= from && FuzzyWithin(fuzzy, |normDoc|)
    ensures m == -1 || from <= m <= |normDoc|
    ensures m != IndexOf(normDoc, target, from) ==>
              IndexOf(normDoc, target, from) == -1 && !isFallback && fuzzy(from) == Some(m)
  {
    var exact := IndexOf(normDoc, target, from);
    assert exact != -1 ==> ClampIndex(from, |normDoc|) == from;
    if exact == -1 && !isFallback && fuzzy(from).Some? then fuzzy(from).value else exact
  }

  /**
   * The ranges the loop records from search start `from` on, after
   * `processed`, as the source is written: the offset is mapped before the
   * loop looks at whether it is -1.
   */
  function ScanAsWritten(normDoc: string, target: string, mapping: int -> Option<Range>, fuzzy: FuzzyOracle,
                         isFallback: bool, from: int, processed: seq<Range>): seq<Range>
    requires target != [] && 0 <= from && FuzzyWithin(fuzzy, |normDoc|)
    decreases |normDoc| + 1 - from
  {
    var m := NextMatch(normDoc, target, fuzzy, isFallback, from);
    if m == -1 then Record(processed, mapping(-1))
    else ScanAsWritten(normDoc, target, mapping, fuzzy, isFallback, m + 1, Record(processed, mapping(m)))
  }

  /** The loop as intended: it stops before mapping -1. */
  function ScanCorrected(normDoc: string, target: string, mapping: int -> Option<Range>, fuzzy: FuzzyOracle,
                         isFallback: bool, from: int, processed: seq<Range>): seq<Range>
    requires target != [] && 0 <= from && FuzzyWithin(fuzzy, |normDoc|)
    decreases |normDoc| + 1 - from
  {
    var m := NextMatch(normDoc, target, fuzzy, isFallback, from);
    if m == -1 then processed
    else ScanCorrected(normDoc, target, mapping, fuzzy, isFallback, m + 1, Record(processed, mapping(m)))
  }

  /** `performTextSearch` as written, on the ranges it reports. */
  function SearchAsWritten(doc: string, textToFind: string, languageId: string, fuzzy: FuzzyOracle,
                           isFallback: bool): seq<Range>
    requires FuzzyWithin(fuzzy, |NormalizeAndCleanText(doc, languageId)|)
  {
    var trimmed := Trim(textToFind);
    AsWrittenNormalized(doc, trimmed, NormalizeAndCleanText(trimmed, languageId),
                        NormalizeAndCleanText(doc, languageId), fuzzy, isFallback)
  }

  /** `performTextSearch` with the loop corrected. */
  function SearchCorrected(doc: string, textToFind: string, languageId: string, fuzzy: FuzzyOracle,
                           isFallback: bool): seq<Range>
    requires FuzzyWithin(fuzzy, |NormalizeAndCleanText(doc, languageId)|)
  {
    var trimmed := Trim(textToFind);
    CorrectedNormalized(doc, trimmed, NormalizeAndCleanText(trimmed, languageId),
                        NormalizeAndCleanText(doc, languageId), fuzzy, isFallback)
  }

  /**
   * The search as written once the trimmed find text and both normalized
   * texts are known: nothing when either normalized text is empty.
   */
  function AsWrittenNormalized(doc: string, trimmed: string, target: string, normDoc: string, fuzzy: FuzzyOracle,
                               isFallback: bool): seq<Range>
    requires FuzzyWithin(fuzzy, |normDoc|)
  {
    if target == [] || normDoc == [] then []
    else ScanAsWritten(normDoc, target, Mapping(doc, normDoc, trimmed), fuzzy, isFallback, 0, [])
  }

  /** The corrected search once the trimmed and normalized texts are known. */
  function CorrectedNormalized(doc: string, trimmed: string, target: string, normDoc: string, fuzzy: FuzzyOracle,
                               isFallback: bool): seq<Range>
    requires FuzzyWithin(fuzzy, |normDoc|)
  {
    if target == [] || normDoc == [] then []
    else ScanCorrected(normDoc, target, Mapping(doc, normDoc, trimmed), fuzzy, isFallback, 0, [])
  }

  /** Both searches, once the trimmed and normalized texts are known. */
  lemma SearchesThroughParts(doc: string, textToFind: string, languageId: string, fuzzy: FuzzyOracle,
                             isFallback: bool, trimmed: string, target: string, normDoc: string)
    requires Trim(textToFind) == trimmed && NormalizeAndCleanText(trimmed, languageId) == target
    requires NormalizeAndCleanText(doc, languageId) == normDoc && FuzzyWithin(fuzzy, |normDoc|)
    ensures SearchAsWritten(doc, textToFind, languageId, fuzzy, isFallback)
         == AsWrittenNormalized(doc, trimmed, target, normDoc, fuzzy, isFallback)
    ensures SearchCorrected(doc, textToFind, languageId, fuzzy, isFallback)
         == CorrectedNormalized(doc, trimmed, target, normDoc, fuzzy, isFallback)
  {
  }

  /** `performTextSearch`: the `while (true)` loop with its `break`, as written. */
  method PerformTextSearch(doc: string, textToFind: string, languageId: string, fuzzy: FuzzyOracle,
                           isFallback: bool) returns (results: seq<MatchResult>)
    requires FuzzyWithin(fuzzy, |NormalizeAndCleanText(doc, languageId)|)
    ensures results == TextResults(SearchAsWritten(doc, textToFind, languageId, fuzzy, isFallback))
  {
    var trimmed := Trim(textToFind);
    var target := NormalizeAndCleanText(trimmed, languageId);
    var normDoc := NormalizeAndCleanText(doc, languageId);
    results := SearchNormalizedLoop(doc, trimmed, target, normDoc, fuzzy, isFallback);
  }

  /** The search once the normalized texts are known; the loop runs only when neither is empty. */
  method SearchNormalizedLoop(doc: string, trimmed: string, target: string, normDoc: string, fuzzy: FuzzyOracle,
                              isFallback: bool) returns (results: seq<MatchResult>)
    requires FuzzyWithin(fuzzy, |normDoc|)
    ensures results == TextResults(AsWrittenNormalized(doc, trimmed, target, normDoc, fuzzy, isFallback))
  {
    if target == [] || normDoc == [] {
      return [];
    }
    results := ScanLoop(normDoc, target, Mapping(doc, normDoc, trimmed), fuzzy, isFallback);
  }

  /**
   * The loop as written does what the corrected loop does and then records
   * the range of the offset -1 as well.
   */
  lemma {:induction false} AsWrittenIsCorrectedThenLast(normDoc: string, target: string, mapping: int -> Option<Range>,
                                                        fuzzy: FuzzyOracle, isFallback: bool, from: int,
                                                        processed: seq<Range>)
    requires target != [] && 0 <= from && FuzzyWithin(fuzzy, |normDoc|)
    ensures ScanAsWritten(normDoc, target, mapping, fuzzy, isFallback, from, processed)
         == Record(ScanCorrected(normDoc, target, mapping, fuzzy, isFallback, from, processed), mapping(-1))
    decreases |normDoc| + 1 - from
  {
    var m := NextMatch(normDoc, target, fuzzy, isFallback, from);
    AsWrittenStep(normDoc, target, mapping, fuzzy, isFallback, from, processed, m);
    CorrectedStep(normDoc, target, mapping, fuzzy, isFallback, from, processed, m);
    if m != -1 {
      var next := Record(processed, mapping(m));
      AsWrittenIsCorrectedThenLast(normDoc, target, mapping, fuzzy, isFallback, m + 1, next);
      calc {
        ScanAsWritten(normDoc, target, mapping, fuzzy, isFallback, from, processed);
        ScanAsWritten(normDoc, target, mapping, fuzzy, isFallback, m + 1, next);
        Record(ScanCorrected(normDoc, target, mapping, fuzzy, isFallback, m + 1, next), mapping(-1));
        Record(ScanCorrected(normDoc, target, mapping, fuzzy, isFallback, from, processed), mapping(-1));
      }
    }
  }

  /** One iteration as written: the offset is mapped, then the loop stops at -1 or goes on after it. */
  lemma AsWrittenStep(normDoc: string, target: string, mapping: int -> Option<Range>, fuzzy: FuzzyOracle,
                      isFallback: bool, from: int, processed: seq<Range>, m: int)
    requires target != [] && 0 <= from && FuzzyWithin(fuzzy, |normDoc|)
    requires m == NextMatch(normDoc, target, fuzzy, isFallback, from)
    ensures m == -1 ==> ScanAsWritten(normDoc, target, mapping, fuzzy, isFallback, from, processed) == Record(processed, mapping(-1))
    ensures m != -1 ==> ScanAsWritten(normDoc, target, mapping, fuzzy, isFallback, from, processed)
                        == ScanAsWritten(normDoc, target, mapping, fuzzy, isFallback, m + 1, Record(processed, mapping(m)))
  {
  }

  /** One step of the corrected loop. */
  lemma CorrectedStep(normDoc: string, target: string, mapping: int -> Option<Range>, fuzzy: FuzzyOracle,
                      isFallback: bool, from: int, processed: seq<Range>, m: int)
    requires target != [] && 0 <= from && FuzzyWithin(fuzzy, |normDoc|)
    requires m == NextMatch(normDoc, target, fuzzy, isFallback, from)
    ensures m == -1 ==> ScanCorrected(normDoc, target, mapping, fuzzy, isFallback, from, processed) == processed
    ensures m != -1 ==> ScanCorrected(normDoc, target, mapping, fuzzy, isFallback, from, processed)
                        == ScanCorrected(normDoc, target, mapping, fuzzy, isFallback, m + 1, Record(processed, mapping(m)))
  {
  }

  /** The offset search of one iteration: `indexOf`, then the fuzzy matcher when allowed. */
  method FindMatch(normDoc: string, target: string, fuzzy: FuzzyOracle, isFallback: bool, searchStart: int)
    returns (matchIndex: int)
    requires target != [] && 0 <= searchStart && FuzzyWithin(fuzzy, |normDoc|)
    ensures matchIndex == NextMatch(normDoc, target, fuzzy, isFallback, searchStart)
  {
    matchIndex := IndexOf(normDoc, target, searchStart);
    if matchIndex == -1 && !isFallback {
      var best := fuzzy(searchStart);
      if best.Some? {
        matchIndex := best.value;
      }
    }
  }

  /**
   * The loop of `performTextSearch` over the normalized document, with
   * `mapping` the step that maps a normalized offset back to a range. The
   * source's `while (true)` maps the offset it found and only then breaks at
   * -1; here the loop is rotated, so the mapping of that last -1 follows it.
   */
  method ScanLoop(normDoc: string, target: string, mapping: int -> Option<Range>, fuzzy: FuzzyOracle,
                  isFallback: bool) returns (results: seq<MatchResult>)
    requires target != [] && FuzzyWithin(fuzzy, |normDoc|)
    ensures results == TextResults(ScanAsWritten(normDoc, target, mapping, fuzzy, isFallback, 0, []))
  {
    var searchStart := 0;
    var processed: seq<Range> := [];
    results := [];
    var matchIndex := FindMatch(normDoc, target, fuzzy, isFallback, searchStart);
    while matchIndex != -1
      invariant 0 <= searchStart <= |normDoc| + 1
      invariant matchIndex == NextMatch(normDoc, target, fuzzy, isFallback, searchStart)
      invariant results == TextResults(processed)
      invariant ScanAsWritten(normDoc, target, mapping, fuzzy, isFallback, searchStart, processed)
             == ScanAsWritten(normDoc, target, mapping, fuzzy, isFallback, 0, [])
      decreases |normDoc| + 1 - searchStart
    {
      AsWrittenStep(normDoc, target, mapping, fuzzy, isFallback, searchStart, processed, matchIndex);
      processed, results := RecordMapped(processed, results, mapping(matchIndex));
      searchStart := matchIndex + 1;
      matchIndex := FindMatch(normDoc, target, fuzzy, isFallback, searchStart);
    }
    AsWrittenStep(normDoc, target, mapping, fuzzy, isFallback, searchStart, processed, matchIndex);
    processed, results := RecordMapped(processed, results, mapping(matchIndex));
  }

  /** An exact or fuzzy match at normalized offset `m`. */
  ghost predicate Matched(normDoc: string, target: string, fuzzy: FuzzyOracle, isFallback: bool, m: int) {
    0 <= m <= |normDoc| && (OccursAt(normDoc, target, m) || (!isFallback && exists s :: fuzzy(s) == Some(m)))
  }

  /** A loop offset other than -1 is an exact or fuzzy match. */
  lemma NextMatchMatched(normDoc: string, target: string, fuzzy: FuzzyOracle, isFallback: bool, from: int)
    requires target != [] && 0 <= from && FuzzyWithin(fuzzy, |normDoc|)
    requires NextMatch(normDoc, target, fuzzy, isFallback, from) != -1
    ensures Matched(normDoc, target, fuzzy, isFallback, NextMatch(normDoc, target, fuzzy, isFallback, from))
  {
    var m := NextMatch(normDoc, target, fuzzy, isFallback, from);
    if m == IndexOf(normDoc, target, from) {
      IndexOfSpec(normDoc, target, from);
      assert OccursAt(normDoc, target, m);
    } else {
      assert fuzzy(from) == Some(m);
    }
  }

  /**
   * The corrected loop records only ranges mapped from a match inside the
   * normalized document.
   */
  lemma {:induction false} ScanCorrectedSound(normDoc: string, target: string, mapping: int -> Option<Range>,
                                              fuzzy: FuzzyOracle, isFallback: bool, from: int,
                                              processed: seq<Range>, x: Range)
    requires target != [] && 0 <= from && FuzzyWithin(fuzzy, |normDoc|)
    requires x in ScanCorrected(normDoc, target, mapping, fuzzy, isFallback, from, processed)
    ensures x in processed || exists m :: Matched(normDoc, target, fuzzy, isFallback, m) && mapping(m) == Some(x)
    decreases |normDoc| + 1 - from
  {
    var m0 := NextMatch(normDoc, target, fuzzy, isFallback, from);
    CorrectedStep(normDoc, target, mapping, fuzzy, isFallback, from, processed, m0);
    if m0 != -1 {
      var next := Record(processed, mapping(m0));
      RecordContents(processed, mapping(m0));
      ScanCorrectedSound(normDoc, target, mapping, fuzzy, isFallback, m0 + 1, next, x);
      if x !in processed && mapping(m0) == Some(x) {
        NextMatchMatched(normDoc, target, fuzzy, isFallback, from);
      }
    }
  }

  /** Both loops keep the ranges recorded before and never record one twice. */
  lemma {:induction false} ScanAsWrittenWellFormed(docLength: nat, normDoc: string, target: string,
                                                   mapping: int -> Option<Range>, fuzzy: FuzzyOracle,
                                                   isFallback: bool, from: int, processed: seq<Range>)
    requires target != [] && 0 <= from && FuzzyWithin(fuzzy, |normDoc|)
    requires forall m, x :: mapping(m) == Some(x) ==> InDocument(x, docLength)
    requires Distinct(processed) && forall x :: x in processed ==> InDocument(x, docLength)
    ensures var r := ScanAsWritten(normDoc, target, mapping, fuzzy, isFallback, from, processed);
      Distinct(r) && forall x :: x in r ==> InDocument(x, docLength)
    decreases |normDoc| + 1 - from
  {
    var m0 := NextMatch(normDoc, target, fuzzy, isFallback, from);
    var next := Record(processed, mapping(m0));
    RecordDistinct(processed, mapping(m0));
    RecordContents(processed, mapping(m0));
    assert forall x :: x in next ==> InDocument(x, docLength);
    AsWrittenStep(normDoc, target, mapping, fuzzy, isFallback, from, processed, m0);
    if m0 != -1 {
      ScanAsWrittenWellFormed(docLength, normDoc, target, mapping, fuzzy, isFallback, m0 + 1, next);
    }
  }

  /** As a fallback the corrected loop is the editor actions' loop. */
  lemma {:induction false} CorrectedFallbackIsScan(normDoc: string, target: string, mapping: int -> Option<Range>,
                                                   fuzzy: FuzzyOracle, from: int, processed: seq<Range>)
    requires target != [] && 0 <= from && FuzzyWithin(fuzzy, |normDoc|)
    ensures ScanCorrected(normDoc, target, mapping, fuzzy, true, from, processed)
         == Scan(normDoc, target, mapping, from, processed)
    decreases |normDoc| + 1 - from
  {
    var m0 := NextMatch(normDoc, target, fuzzy, true, from);
    assert m0 == IndexOf(normDoc, target, from);
    CorrectedStep(normDoc, target, mapping, fuzzy, true, from, processed, m0);
    if m0 != -1 {
      ScanStep(normDoc, target, mapping, from, processed, m0);
      CorrectedFallbackIsScan(normDoc, target, mapping, fuzzy, m0 + 1, Record(processed, mapping(m0)));
    }
  }

  /** An empty normalized find text or document gives no results. */
  lemma EmptyInputsFindNothing(doc: string, textToFind: string, languageId: string, fuzzy: FuzzyOracle,
                               isFallback: bool)
    requires FuzzyWithin(fuzzy, |NormalizeAndCleanText(doc, languageId)|)
    requires NormalizeAndCleanText(Trim(textToFind), languageId) == [] || NormalizeAndCleanText(doc, languageId) == []
    ensures SearchAsWritten(doc, textToFind, languageId, fuzzy, isFallback) == []
    ensures SearchCorrected(doc, textToFind, languageId, fuzzy, isFallback) == []
  {
  }

  /** The reported ranges are distinct and inside the document. */
  lemma SearchAsWrittenWellFormed(doc: string, textToFind: string, languageId: string, fuzzy: FuzzyOracle,
                                  isFallback: bool)
    requires FuzzyWithin(fuzzy, |NormalizeAndCleanText(doc, languageId)|)
    ensures var r := SearchAsWritten(doc, textToFind, languageId, fuzzy, isFallback);
      Distinct(r) && forall x :: x in r ==> InDocument(x, |doc|)
  {
    var trimmed := Trim(textToFind);
    var target := NormalizeAndCleanText(trimmed, languageId);
    var normDoc := NormalizeAndCleanText(doc, languageId);
    if target != [] && normDoc != [] {
      var mapping := Mapping(doc, normDoc, trimmed);
      forall m, x | mapping(m) == Some(x) ensures InDocument(x, |doc|) {
        assert MapToOriginal(doc, |normDoc|, trimmed, m) == Some(x);
      }
      ScanAsWrittenWellFormed(|doc|, normDoc, target, mapping, fuzzy, isFallback, 0, []);
      assert SearchAsWritten(doc, textToFind, languageId, fuzzy, isFallback)
          == AsWrittenNormalized(doc, trimmed, target, normDoc, fuzzy, isFallback);
    }
  }

  /**
   * With the loop corrected, every reported range is mapped from an exact or
   * fuzzy match inside the normalized document, and so starts at an
   * occurrence of the find text's first significant line.
   */
  lemma SearchCorrectedSound(doc: string, textToFind: string, languageId: string, fuzzy: FuzzyOracle,
                             isFallback: bool, x: Range)
    requires FuzzyWithin(fuzzy, |NormalizeAndCleanText(doc, languageId)|)
    requires x in SearchCorrected(doc, textToFind, languageId, fuzzy, isFallback)
    ensures var trimmed := Trim(textToFind);
      var normDoc := NormalizeAndCleanText(doc, languageId);
      (exists m :: Matched(normDoc, NormalizeAndCleanText(trimmed, languageId), fuzzy, isFallback, m)
                   && MapToOriginal(doc, |normDoc|, trimmed, m) == Some(x))
      && Anchored(doc, FirstLine(trimmed), LastLine(trimmed), |trimmed|, x)
  {
    var trimmed := Trim(textToFind);
    var target := NormalizeAndCleanText(trimmed, languageId);
    var normDoc := NormalizeAndCleanText(doc, languageId);
    assert x in ScanCorrected(normDoc, target, Mapping(doc, normDoc, trimmed), fuzzy, isFallback, 0, []);
    CorrectedMappedSound(doc, trimmed, target, normDoc, fuzzy, isFallback, x);
  }

  /** The corrected loop's ranges, for given normalized texts. */
  lemma CorrectedMappedSound(doc: string, trimmed: string, target: string, normDoc: string, fuzzy: FuzzyOracle,
                             isFallback: bool, x: Range)
    requires target != [] && FuzzyWithin(fuzzy, |normDoc|)
    requires x in ScanCorrected(normDoc, target, Mapping(doc, normDoc, trimmed), fuzzy, isFallback, 0, [])
    ensures exists m :: Matched(normDoc, target, fuzzy, isFallback, m) && MapToOriginal(doc, |normDoc|, trimmed, m) == Some(x)
    ensures Anchored(doc, FirstLine(trimmed), LastLine(trimmed), |trimmed|, x)
  {
    var mapping := Mapping(doc, normDoc, trimmed);
    ScanCorrectedSound(normDoc, target, mapping, fuzzy, isFallback, 0, [], x);
    var m :| Matched(normDoc, target, fuzzy, isFallback, m) && mapping(m) == Some(x);
    assert MapToOriginal(doc, |normDoc|, trimmed, m) == Some(x);
    MappedRangeIsAnchored(doc, |normDoc|, trimmed, m);
  }

  /** As a fallback, the corrected search reports what the editor actions' text search reports. */
  lemma CorrectedFallbackIsEditorSearch(doc: string, textToFind: string, languageId: string, fuzzy: FuzzyOracle)
    requires FuzzyWithin(fuzzy, |NormalizeAndCleanText(doc, languageId)|)
    ensures SearchCorrected(doc, textToFind, languageId, fuzzy, true) == TextSearch(doc, textToFind, languageId)
  {
    var trimmed := Trim(textToFind);
    var target := NormalizeAndCleanText(trimmed, languageId);
    var normDoc := NormalizeAndCleanText(doc, languageId);
    if target != [] && normDoc != [] {
      CorrectedFallbackIsScan(normDoc, target, Mapping(doc, normDoc, trimmed), fuzzy, 0, []);
    }
  }
}
