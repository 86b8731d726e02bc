/**
 * The commands of src/editorActions.ts: finding and highlighting the code to
 * replace (by AST in TypeScript and JavaScript, with the normalized text
 * search as fallback, and by text in the other supported languages),
 * replacing what was found, and clearing the highlights.
 *
 * The active editor is given by whether there is one and the document's
 * text; the parse of the document is given as its tree, the parse of the
 * find text as its outcome, and whether the editor refuses an edit because
 * the document changed meanwhile as a flag.
 */
module EditorActions {
  import opened Syntax
  import opened JsStrings
  import opened AstUtils
  import opened EditorTextSearch
  import opened SequenceMatcher
  import opened State
  import opened Edits

  /** The languages searched by AST. */
  predicate IsAstLanguage(languageId: string) {
    languageId in ["typescript", "typescriptreact", "javascript", "javascriptreact"]
  }

  /** The languages searched by text only. */
  predicate IsTextLanguage(languageId: string) {
    languageId in ["css", "html", "json", "jsonc", "xml", "less", "scss", "python", "ruby",
                   "shellscript", "java", "csharp", "php", "go", "rust"]
  }

  lemma NoLanguageIsBoth(languageId: string)
    ensures !(IsAstLanguage(languageId) && IsTextLanguage(languageId))
  {}

  // The fallback merge.

  /** Appends each incoming result whose range is not yet among the results. */
  function MergeNew(existing: seq<MatchResult>, incoming: seq<MatchResult>): seq<MatchResult>
    decreases |incoming|
  {
    if incoming == [] then existing
    else
      var next := if incoming[0].range in RangesOf(existing) then existing else existing + [incoming[0]];
      MergeNew(next, incoming[1..])
  }

  lemma RangesOfAppend(rs: seq<MatchResult>, x: MatchResult)
    ensures RangesOf(rs + [x]) == RangesOf(rs) + [x.range]
  {
    assert forall i :: 0 <= i < |rs| ==> (rs + [x])[i] == rs[i];
  }

  /**
   * The merge keeps what was there, and adds every incoming result whose
   * range was not present: all of them, in order, when none was present and
   * no two incoming ranges are equal.
   */
  lemma {:induction false} MergeDisjoint(existing: seq<MatchResult>, incoming: seq<MatchResult>)
    requires Distinct(RangesOf(incoming))
    requires forall i :: 0 <= i < |incoming| ==> incoming[i].range !in RangesOf(existing)
    ensures MergeNew(existing, incoming) == existing + incoming
    decreases |incoming|
  {
    if incoming != [] {
      var x := incoming[0];
      var rest := incoming[1..];
      RangesOfAppend(existing, x);
      assert RangesOf(rest) == RangesOf(incoming)[1..];
      forall i | 0 <= i < |rest| ensures rest[i].range !in RangesOf(existing + [x]) {
        assert rest[i] == incoming[i + 1];
        assert RangesOf(incoming)[0] == x.range && RangesOf(incoming)[i + 1] == rest[i].range;
      }
      MergeDisjoint(existing + [x], rest);
      assert existing + [x] + rest == existing + incoming;
    }
  }

  /** Every incoming range ends up among the merged ranges, after the existing results. */
  lemma {:induction false} MergeCovers(existing: seq<MatchResult>, incoming: seq<MatchResult>)
    ensures var m := MergeNew(existing, incoming);
      |existing| <= |m| && m[..|existing|] == existing
      && forall i :: 0 <= i < |incoming| ==> incoming[i].range in RangesOf(m)
    decreases |incoming|
  {
    if incoming != [] {
      var x := incoming[0];
      var next := if x.range in RangesOf(existing) then existing else existing + [x];
      RangesOfAppend(existing, x);
      MergeCovers(next, incoming[1..]);
      var m := MergeNew(next, incoming[1..]);
      assert m[..|existing|] == next[..|existing|];
      assert x.range in RangesOf(m) by {
        var k :| 0 <= k < |RangesOf(next)| && RangesOf(next)[k] == x.range;
        assert m[k] == next[k];
        assert RangesOf(m)[k] == x.range;
      }
      forall i | 0 < i < |incoming| ensures incoming[i].range in RangesOf(m) {
        assert incoming[i] == incoming[1..][i - 1];
      }
    }
  }

  /** The merge loop of the AST branch's fallback. */
  method MergeFallback(existing: seq<MatchResult>, incoming: seq<MatchResult>) returns (merged: seq<MatchResult>)
    ensures merged == MergeNew(existing, incoming)
  {
    merged := existing;
    var idx := 0;
    while idx < |incoming|
      invariant 0 <= idx <= |incoming|
      invariant MergeNew(merged, incoming[idx..]) == MergeNew(existing, incoming)
    {
      var result := incoming[idx];
      assert incoming[idx..][1..] == incoming[idx + 1..];
      if result.range !in RangesOf(merged) {
        merged := merged + [result];
      }
      idx := idx + 1;
    }
  }

  // What the highlight command finds.

  /** The AST search: the run search over the whole document tree, when the find text parsed to some statements. */
  function AstSearch(docLength: nat, findNodes: Option<seq<Node>>, docTree: Node, ignore: bool): seq<MatchResult> {
    if findNodes.Some? && |findNodes.value| > 0 then VisitResults(docLength, docTree, findNodes.value, ignore) else []
  }

  /** The text search's results, as the highlight command stores them. */
  function TextHighlights(doc: string, textToFind: string, languageId: string): seq<MatchResult> {
    TextResults(TextSearch(doc, textToFind, languageId))
  }

  /** The results `highlightTextInEditor` stores, when there is an editor and a decoration type. */
  function HighlightResults(doc: string, textToFind: string, languageId: string, ignore: bool,
                            findOutcome: ParseOutcome, docTree: Node): seq<MatchResult>
    requires WellFormedParse(findOutcome)
  {
    var trimmed := Trim(textToFind);
    if trimmed == [] then []
    else if IsAstLanguage(languageId) then
      var ast := AstSearch(|doc|, ParseCodeToAST(trimmed, findOutcome), docTree, ignore);
      if ast != [] then ast else MergeNew([], TextHighlights(doc, textToFind, languageId))
    else if IsTextLanguage(languageId) then TextHighlights(doc, textToFind, languageId)
    else []
  }

  /** `clearHighlights`: takes the highlights off the editors, if there is a decoration type, and always forgets the results. */
  method ClearHighlights(st: ExtensionState)
    modifies st
    ensures st.matchedResults == []
    ensures st.highlighted == if old(st.decoration).Some? then [] else old(st.highlighted)
    ensures st.decoration == old(st.decoration) && st.disposed == old(st.disposed)
    ensures old(st.Consistent()) ==> st.Consistent()
  {
    var decorationType := st.GetDecorationType();
    if decorationType.None? {
      st.ClearMatchedResults();
      return;
    }
    st.SetDecorations([]);
    st.ClearMatchedResults();
  }

  lemma RangesOfTextResults(rs: seq<Range>)
    ensures RangesOf(TextResults(rs)) == rs
  {}

  /** `highlightTextInEditor`. */
  method HighlightTextInEditor(st: ExtensionState, editorPresent: bool, doc: string, textToFind: string,
                               languageId: string, ignore: bool, findOutcome: ParseOutcome, docTree: Node)
    requires WellFormedParse(findOutcome)
    modifies st
    ensures st.matchedResults ==
      if editorPresent && st.decoration.Some? then HighlightResults(doc, textToFind, languageId, ignore, findOutcome, docTree)
      else []
    ensures st.highlighted == if st.decoration.Some? then RangesOf(st.matchedResults) else old(st.highlighted)
    ensures st.decoration == old(st.decoration) && st.disposed == old(st.disposed)
    ensures old(st.Consistent()) ==> st.Consistent()
  {
    ClearHighlights(st);
    if !editorPresent {
      return;
    }
    var trimmed := Trim(textToFind);
    if trimmed == [] {
      return;
    }
    var supported := IsAstLanguage(languageId) || IsTextLanguage(languageId);
    if !supported {
      return;
    }
    var local := FindMatches(doc, textToFind, languageId, ignore, findOutcome, docTree);
    st.SetMatchedResults(local);
    if |local| > 0 {
      var decorationType := st.GetDecorationType();
      if decorationType.None? {
        ClearHighlights(st);
        return;
      }
      st.SetDecorations(RangesOf(local));
    }
  }

  /** The search of `highlightTextInEditor` for a supported language and a find text that is not blank. */
  method FindMatches(doc: string, textToFind: string, languageId: string, ignore: bool,
                     findOutcome: ParseOutcome, docTree: Node) returns (local: seq<MatchResult>)
    requires WellFormedParse(findOutcome)
    requires IsAstLanguage(languageId) || IsTextLanguage(languageId)
    ensures local == HighlightResults(doc, textToFind, languageId, ignore, findOutcome, docTree)
  {
    local := [];
    var trimmed := Trim(textToFind);
    if trimmed == [] {
      return;
    }
    if IsAstLanguage(languageId) {
      local := SearchWithFallback(doc, textToFind, trimmed, languageId, ignore, findOutcome, docTree);
    } else {
      var text := PerformTextSearch(doc, textToFind, languageId);
      local := local + text;
    }
  }

  /** The AST search for a supported language, and the text search when it finds nothing. */
  method SearchWithFallback(doc: string, textToFind: string, trimmed: string, languageId: string, ignore: bool,
                            findOutcome: ParseOutcome, docTree: Node) returns (local: seq<MatchResult>)
    requires WellFormedParse(findOutcome)
    ensures var ast := AstSearch(|doc|, ParseCodeToAST(trimmed, findOutcome), docTree, ignore);
      local == if ast != [] then ast else MergeNew([], TextHighlights(doc, textToFind, languageId))
  {
    local := SearchByAst(doc, trimmed, ignore, findOutcome, docTree);
    var astFound := local != [];
    if !astFound {
      var text := PerformTextSearch(doc, textToFind, languageId);
      local := MergeFallback(local, text);
    }
  }

  /** The AST branch of `highlightTextInEditor` before its fallback. */
  method SearchByAst(doc: string, trimmed: string, ignore: bool, findOutcome: ParseOutcome, docTree: Node)
    returns (local: seq<MatchResult>)
    requires WellFormedParse(findOutcome)
    ensures local == AstSearch(|doc|, ParseCodeToAST(trimmed, findOutcome), docTree, ignore)
  {
    local := [];
    var parsed := ParseCodeToAST(trimmed, findOutcome);
    if parsed.Some? && |parsed.value| > 0 {
      local := Visit(|doc|, docTree, parsed.value, ignore);
    }
  }

  /** Without a blank find text, or for another language, nothing is found. */
  lemma NothingToFind(doc: string, textToFind: string, languageId: string, ignore: bool,
                      findOutcome: ParseOutcome, docTree: Node)
    requires WellFormedParse(findOutcome)
    requires Blank(textToFind) || (!IsAstLanguage(languageId) && !IsTextLanguage(languageId))
    ensures HighlightResults(doc, textToFind, languageId, ignore, findOutcome, docTree) == []
  {}

  /**
   * In TypeScript and JavaScript the text search runs only when the AST
   * search finds nothing, and then contributes all its results; otherwise
   * the AST results stand alone. Other supported languages get the text
   * search's results.
   */
  lemma HighlightSources(doc: string, textToFind: string, languageId: string, ignore: bool,
                         findOutcome: ParseOutcome, docTree: Node)
    requires WellFormedParse(findOutcome) && !Blank(textToFind)
    ensures var r := HighlightResults(doc, textToFind, languageId, ignore, findOutcome, docTree);
      var ast := AstSearch(|doc|, ParseCodeToAST(Trim(textToFind), findOutcome), docTree, ignore);
      (IsAstLanguage(languageId) && ast != [] ==> r == ast)
      && (IsAstLanguage(languageId) && ast == [] ==> r == TextHighlights(doc, textToFind, languageId))
      && (IsTextLanguage(languageId) ==> r == TextHighlights(doc, textToFind, languageId))
  {
    NoLanguageIsBoth(languageId);
    if IsAstLanguage(languageId) {
      AstLanguageSources(doc, textToFind, languageId, ignore, findOutcome, docTree);
    }
  }

  lemma AstLanguageSources(doc: string, textToFind: string, languageId: string, ignore: bool,
                           findOutcome: ParseOutcome, docTree: Node)
    requires WellFormedParse(findOutcome) && !Blank(textToFind) && IsAstLanguage(languageId)
    ensures var r := HighlightResults(doc, textToFind, languageId, ignore, findOutcome, docTree);
      var ast := AstSearch(|doc|, ParseCodeToAST(Trim(textToFind), findOutcome), docTree, ignore);
      r == if ast != [] then ast else TextHighlights(doc, textToFind, languageId)
  {
    FallbackKeepsAll(doc, textToFind, languageId);
  }

  /** The fallback merge into the empty AST results keeps every text result. */
  lemma FallbackKeepsAll(doc: string, textToFind: string, languageId: string)
    ensures MergeNew([], TextHighlights(doc, textToFind, languageId)) == TextHighlights(doc, textToFind, languageId)
  {
    var ranges := TextSearch(doc, textToFind, languageId);
    TextSearchWellFormed(doc, textToFind, languageId);
    RangesOfTextResults(ranges);
    MergeDisjoint([], TextResults(ranges));
  }

  /** Every stored result lies inside the document, and they are all of the mode the search used. */
  lemma HighlightResultsWellFormed(doc: string, textToFind: string, languageId: string, ignore: bool,
                                   findOutcome: ParseOutcome, docTree: Node)
    requires WellFormedParse(findOutcome)
    ensures var r := HighlightResults(doc, textToFind, languageId, ignore, findOutcome, docTree);
      var ast := AstSearch(|doc|, ParseCodeToAST(Trim(textToFind), findOutcome), docTree, ignore);
      forall x :: x in r ==>
        (InDocument(x.range, |doc|) && x.mode == (if IsAstLanguage(languageId) && ast != [] then Ast else Text))
  {
    if !Blank(textToFind) {
      HighlightSources(doc, textToFind, languageId, ignore, findOutcome, docTree);
      AstSearchWellFormed(|doc|, ParseCodeToAST(Trim(textToFind), findOutcome), docTree, ignore);
      TextHighlightsWellFormed(doc, textToFind, languageId);
    }
  }

  lemma AstSearchWellFormed(docLength: nat, findNodes: Option<seq<Node>>, docTree: Node, ignore: bool)
    ensures forall x :: x in AstSearch(docLength, findNodes, docTree, ignore) ==> InDocument(x.range, docLength) && x.mode == Ast
  {
    if findNodes.Some? && |findNodes.value| > 0 {
      VisitResultsInDocument(docLength, docTree, findNodes.value, ignore);
    }
  }

  lemma TextHighlightsWellFormed(doc: string, textToFind: string, languageId: string)
    ensures forall x :: x in TextHighlights(doc, textToFind, languageId) ==> InDocument(x.range, |doc|) && x.mode == Text
  {
    TextSearchWellFormed(doc, textToFind, languageId);
    TextResultsTagged(TextSearch(doc, textToFind, languageId));
  }

  /** A text-mode search never stores two results with the same range. */
  lemma TextHighlightsDistinct(doc: string, textToFind: string, languageId: string, ignore: bool,
                               findOutcome: ParseOutcome, docTree: Node)
    requires WellFormedParse(findOutcome) && !Blank(textToFind)
    requires !IsAstLanguage(languageId) || AstSearch(|doc|, ParseCodeToAST(Trim(textToFind), findOutcome), docTree, ignore) == []
    ensures Distinct(RangesOf(HighlightResults(doc, textToFind, languageId, ignore, findOutcome, docTree)))
  {
    HighlightSources(doc, textToFind, languageId, ignore, findOutcome, docTree);
    TextSearchWellFormed(doc, textToFind, languageId);
    RangesOfTextResults(TextSearch(doc, textToFind, languageId));
  }

  // Replacing.

  /**
   * The new document text after `replaceFoundMatches`, or `None` when the
   * document stays as it was: no editor, nothing stored, ranges the editor
   * refuses as overlapping, or an edit refused because the document changed.
   */
  function ReplaceResult(doc: string, results: seq<MatchResult>, replaceText: string,
                         editorPresent: bool, concurrentlyModified: bool): Option<string>
  {
    var ranges := RangesOf(SortByStartDescending(results));
    if !editorPresent || results == [] || !ChainBelow(ranges, |doc|) || concurrentlyModified then None
    else Some(ApplyInOrder(doc, ranges, replaceText))
  }

  /** `replaceFoundMatches`; the document is saved afterwards, which is not modelled. */
  method ReplaceFoundMatches(st: ExtensionState, editorPresent: bool, doc: string, replaceText: string,
                             concurrentlyModified: bool) returns (newDoc: string)
    modifies st
    ensures var r := ReplaceResult(doc, old(st.matchedResults), replaceText, editorPresent, concurrentlyModified);
      newDoc == (if r.Some? then r.value else doc)
      && st.matchedResults == (if r.Some? then [] else old(st.matchedResults))
      && st.highlighted == (if r.Some? && st.decoration.Some? then [] else old(st.highlighted))
    ensures st.decoration == old(st.decoration) && st.disposed == old(st.disposed)
    ensures old(st.Consistent()) ==> st.Consistent()
  {
    var resultsToReplace := st.GetMatchedResults();
    newDoc := doc;
    if !editorPresent {
      return;
    }
    if |resultsToReplace| == 0 {
      return;
    }
    var sortedResults := SortByStartDescending(resultsToReplace);
    var ranges := RangesOf(sortedResults);
    if !ChainBelow(ranges, |doc|) {
      return;
    }
    if concurrentlyModified {
      return;
    }
    newDoc := ApplyInOrder(doc, ranges, replaceText);
    ClearHighlights(st);
  }

  lemma RangesOfCons(x: MatchResult, s: seq<MatchResult>)
    ensures RangesOf([x] + s) == [x.range] + RangesOf(s)
  {
    var a, b := RangesOf([x] + s), [x.range] + RangesOf(s);
    forall i | 0 <= i < |a| ensures a[i] == b[i] {
      if i > 0 {
        assert ([x] + s)[i] == s[i - 1];
      }
    }
  }

  lemma RangesOfTail(s: seq<MatchResult>)
    requires s != []
    ensures RangesOf(s)[1..] == RangesOf(s[1..]) && RangesOf(s)[0] == s[0].range
  {}

  /** Results whose ranges are nonempty and lie inside `[0, len)`. */
  predicate FitsIn(s: seq<MatchResult>, len: int) {
    forall i :: 0 <= i < |s| ==> 0 <= s[i].range.start < s[i].range.end <= len
  }

  /** No two results overlap. */
  predicate ResultsDisjoint(s: seq<MatchResult>) {
    forall i, j :: 0 <= i < j < |s| ==> !Overlap(s[i].range, s[j].range)
  }

  /** Inserting a result that overlaps none of a chain's results keeps the chain. */
  lemma {:induction false} InsertKeepsChain(x: MatchResult, c: seq<MatchResult>, len: int)
    requires ChainBelow(RangesOf(c), len)
    requires 0 <= x.range.start < x.range.end <= len
    requires forall y :: y in c ==> !Overlap(x.range, y.range)
    ensures ChainBelow(RangesOf(InsertByStart(x, c)), len)
  {
    if c == [] || c[0].range.start <= x.range.start {
      RangesOfCons(x, c);
      if c != [] {
        RangesOfTail(c);
        assert !Overlap(x.range, c[0].range);
      }
      assert ([x.range] + RangesOf(c))[1..] == RangesOf(c);
    } else {
      RangesOfTail(c);
      assert !Overlap(x.range, c[0].range);
      InsertKeepsChain(x, c[1..], c[0].range.start);
      var t := InsertByStart(x, c[1..]);
      RangesOfCons(c[0], t);
      assert ([c[0].range] + RangesOf(t))[1..] == RangesOf(t);
    }
  }

  /** Sorting nonempty, pairwise disjoint results inside the document yields an edit the editor accepts. */
  lemma {:induction false} DisjointResultsChain(s: seq<MatchResult>, len: int)
    requires FitsIn(s, len) && ResultsDisjoint(s)
    ensures ChainBelow(RangesOf(SortByStartDescending(s)), len)
  {
    if s != [] {
      var tail := s[1..];
      assert forall i :: 0 <= i < |tail| ==> tail[i] == s[i + 1];
      DisjointResultsChain(tail, len);
      var sorted := SortByStartDescending(tail);
      SortSortsAndPermutes(tail);
      forall y | y in sorted ensures !Overlap(s[0].range, y.range) {
        assert y in multiset(sorted);
        var k :| 0 <= k < |tail| && tail[k] == y;
        assert s[k + 1] == y;
      }
      InsertKeepsChain(s[0], sorted, len);
    }
  }

  /**
   * Replacing nonempty, pairwise disjoint matches inside the document (what
   * a text search gives when its matches do not overlap) succeeds unless the
   * document changed meanwhile, and yields the gap-by-gap result: each match
   * replaced once, the text between them kept.
   */
  lemma DisjointMatchesReplaced(doc: string, results: seq<MatchResult>, replaceText: string)
    requires results != [] && FitsIn(results, |doc|) && ResultsDisjoint(results)
    ensures var ranges := RangesOf(SortByStartDescending(results));
      ChainBelow(ranges, |doc|)
      && ReplaceResult(doc, results, replaceText, true, false) == Some(Rebuild(doc, ranges, replaceText))
  {
    var ranges := RangesOf(SortByStartDescending(results));
    DisjointResultsChain(results, |doc|);
    ApplyInOrderRebuilds(doc, ranges, replaceText);
  }

  /** In an accepted edit no two different results overlap. */
  lemma ChainedResultsDisjoint(results: seq<MatchResult>, len: int, i: nat, j: nat)
    requires ChainBelow(RangesOf(SortByStartDescending(results)), len)
    requires i < |results| && j < |results| && results[i] != results[j]
    ensures !Overlap(results[i].range, results[j].range)
  {
    var sorted := SortByStartDescending(results);
    var ranges := RangesOf(sorted);
    SortSortsAndPermutes(results);
    ChainIsDisjoint(ranges, len);
    assert results[i] in multiset(sorted) && results[j] in multiset(sorted);
    var p :| 0 <= p < |sorted| && sorted[p] == results[i];
    var q :| 0 <= q < |sorted| && sorted[q] == results[j];
    assert ranges[p] == results[i].range && ranges[q] == results[j].range;
    if p < q {
      assert !Overlap(ranges[p], ranges[q]);
    } else {
      assert !Overlap(ranges[q], ranges[p]);
    }
  }

  /** Two different stored results that overlap make the editor refuse the whole edit. */
  lemma OverlapRefused(doc: string, results: seq<MatchResult>, replaceText: string, i: nat, j: nat)
    requires i < |results| && j < |results| && results[i] != results[j]
    requires Overlap(results[i].range, results[j].range)
    ensures ReplaceResult(doc, results, replaceText, true, false) == None
  {
    if ChainBelow(RangesOf(SortByStartDescending(results)), |doc|) {
      ChainedResultsDisjoint(results, |doc|, i, j);
    }
  }
}
