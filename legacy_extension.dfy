/**
 * The commands of the earlier version in src/extension.ts: highlighting,
 * replacing and clearing, over the module-level `matchedASTRanges` and the
 * decoration type `findDecorationType`.
 *
 * This version searches for the first parsed statement only, compares it
 * with every node of the document one at a time (with the flag off), keeps
 * bare ranges, and does not save after replacing. As in the current
 * commands, the active editor is given by whether there is one and the
 * document's text, the parse of the document as its tree, the parse of the
 * find text as its outcome, and an edit refused because the document
 * changed meanwhile as a flag.
 */
module LegacyExtension {
  import opened Syntax
  import opened JsStrings
  import opened State
  import opened Edits
  import AstUtils
  import ApproxRange
  import EditorActions
  import LegacyEquivalence

  // ---------------------------------------------------------------------------
  // The traversal
  // ---------------------------------------------------------------------------

  /** A node's range, from its start to its end, each clamped into the document by `positionAt`. */
  function NodeRange(docLength: nat, n: Node): (r: Range)
    ensures InDocument(r, docLength)
    ensures 0 <= n.start <= n.end <= docLength ==> r == Range(n.start, n.end)
  {
    ApproxRange.DocumentRange(docLength, n.start, n.end)
  }

  /** `visit(node)`: the node's range when it matches the pattern, then what its `forEachChild` children give. */
  function VisitResults(docLength: nat, n: Node, pattern: Node): seq<Range>
    decreases n, 1
  {
    (if LegacyEquivalence.NodesEqual(n, pattern, false) then [NodeRange(docLength, n)] else [])
    + VisitAll(docLength, n.astChildren, pattern)
  }

  /** `ts.forEachChild(node, visit)` over a list of children. */
  function VisitAll(docLength: nat, cs: seq<Node>, pattern: Node): seq<Range>
    decreases cs, 0
  {
    if cs == [] then [] else VisitResults(docLength, cs[0], pattern) + VisitAll(docLength, cs[1..], pattern)
  }

  /** `visit`, pushing onto the shared `localMatchedRanges`, here threaded through as `acc`. */
  method Visit(docLength: nat, n: Node, pattern: Node, acc: seq<Range>) returns (found: seq<Range>)
    ensures found == acc + VisitResults(docLength, n, pattern)
    decreases n, 1
  {
    found := acc;
    if LegacyEquivalence.NodesEqual(n, pattern, false) {
      found := found + [NodeRange(docLength, n)];
    }
    found := VisitChildren(docLength, n, pattern, found);
  }

  /** `ts.forEachChild(n, visit)`. */
  method VisitChildren(docLength: nat, n: Node, pattern: Node, acc: seq<Range>) returns (found: seq<Range>)
    ensures found == acc + VisitAll(docLength, n.astChildren, pattern)
    decreases n, 0
  {
    found := acc;
    var idx := 0;
    while idx < |n.astChildren|
      invariant 0 <= idx <= |n.astChildren|
      invariant found + VisitAll(docLength, n.astChildren[idx..], pattern)
                == acc + VisitAll(docLength, n.astChildren, pattern)
    {
      var c := n.astChildren[idx];
      assert c in n.astChildren;
      assert n.astChildren[idx..][0] == c && n.astChildren[idx..][1..] == n.astChildren[idx + 1..];
      found := Visit(docLength, c, pattern, found);
      idx := idx + 1;
    }
  }

  // ---------------------------------------------------------------------------
  // The traversal is a filter over the pre-order list of nodes
  // ---------------------------------------------------------------------------

  /** A node and all its `forEachChild` descendants, in pre-order. */
  function AstSubtrees(n: Node): (r: seq<Node>)
    ensures |r| > 0 && r[0] == n
    decreases n, 1
  {
    [n] + AstSubtreesAll(n.astChildren)
  }

  function AstSubtreesAll(cs: seq<Node>): seq<Node>
    decreases cs, 0
  {
    if cs == [] then [] else AstSubtrees(cs[0]) + AstSubtreesAll(cs[1..])
  }

  /** The ranges of the nodes of `ns` that match the pattern with the flag off, in order. */
  function MatchingRanges(docLength: nat, ns: seq<Node>, pattern: Node): (r: seq<Range>)
    ensures |r| <= |ns|
  {
    if ns == [] then []
    else if LegacyEquivalence.NodesEqual(ns[0], pattern, false) then
      [NodeRange(docLength, ns[0])] + MatchingRanges(docLength, ns[1..], pattern)
    else MatchingRanges(docLength, ns[1..], pattern)
  }

  /** `n` matches the pattern and `q` is its range. */
  predicate ReportedAs(docLength: nat, n: Node, pattern: Node, q: Range) {
    LegacyEquivalence.NodesEqual(n, pattern, false) && q == NodeRange(docLength, n)
  }

  /** Every node of the list that matches has its range reported. */
  lemma {:induction false} MatchingRangesComplete(docLength: nat, ns: seq<Node>, pattern: Node)
    ensures forall n :: n in ns && LegacyEquivalence.NodesEqual(n, pattern, false)
              ==> NodeRange(docLength, n) in MatchingRanges(docLength, ns, pattern)
  {
    if ns != [] {
      MatchingRangesComplete(docLength, ns[1..], pattern);
      assert forall n :: n in ns ==> n == ns[0] || n in ns[1..];
    }
  }

  /** Every reported range is the range of a node of the list that matches. */
  lemma {:induction false} MatchingRangesSound(docLength: nat, ns: seq<Node>, pattern: Node)
    ensures forall q :: q in MatchingRanges(docLength, ns, pattern)
              ==> exists n :: n in ns && ReportedAs(docLength, n, pattern, q)
  {
    if ns != [] {
      MatchingRangesSound(docLength, ns[1..], pattern);
      var rest := MatchingRanges(docLength, ns[1..], pattern);
      forall q | q in MatchingRanges(docLength, ns, pattern)
        ensures exists n :: n in ns && ReportedAs(docLength, n, pattern, q)
      {
        if q in rest {
          var n :| n in ns[1..] && ReportedAs(docLength, n, pattern, q);
          assert n in ns;
        } else {
          assert ReportedAs(docLength, ns[0], pattern, q);
        }
      }
    }
  }

  lemma {:induction false} MatchingRangesAppend(docLength: nat, a: seq<Node>, b: seq<Node>, pattern: Node)
    ensures MatchingRanges(docLength, a + b, pattern)
            == MatchingRanges(docLength, a, pattern) + MatchingRanges(docLength, b, pattern)
  {
    if a == [] {
      assert a + b == b;
    } else {
      assert (a + b)[0] == a[0] && (a + b)[1..] == a[1..] + b;
      MatchingRangesAppend(docLength, a[1..], b, pattern);
    }
  }

  /** Visiting a node reports, in pre-order, the range of every node of its subtree that matches. */
  lemma {:induction false} VisitIsPreorderFilter(docLength: nat, n: Node, pattern: Node)
    ensures VisitResults(docLength, n, pattern) == MatchingRanges(docLength, AstSubtrees(n), pattern)
    decreases n, 1
  {
    VisitAllIsPreorderFilter(docLength, n.astChildren, pattern);
    MatchingRangesAppend(docLength, [n], AstSubtreesAll(n.astChildren), pattern);
    assert [n][1..] == [];
  }

  lemma {:induction false} VisitAllIsPreorderFilter(docLength: nat, cs: seq<Node>, pattern: Node)
    ensures VisitAll(docLength, cs, pattern) == MatchingRanges(docLength, AstSubtreesAll(cs), pattern)
    decreases cs, 0
  {
    if cs != [] {
      VisitIsPreorderFilter(docLength, cs[0], pattern);
      VisitAllIsPreorderFilter(docLength, cs[1..], pattern);
      MatchingRangesAppend(docLength, AstSubtrees(cs[0]), AstSubtreesAll(cs[1..]), pattern);
    }
  }

  // ---------------------------------------------------------------------------
  // Replacement
  // ---------------------------------------------------------------------------

  /**
   * The stored ranges as results of the current search, so that the one
   * sort by descending start serves both; the tag takes no part in the order.
   */
  function AsResults(rs: seq<Range>): (r: seq<MatchResult>)
    ensures |r| == |rs| && RangesOf(r) == rs
  {
    seq(|rs|, i requires 0 <= i < |rs| => MatchResult(rs[i], Ast))
  }

  /** `[...matchedASTRanges].sort((a, b) => b.start.compareTo(a.start))`. */
  function SortedRanges(rs: seq<Range>): seq<Range> {
    RangesOf(SortByStartDescending(AsResults(rs)))
  }

  /**
   * The document after `replaceFoundMatches`, or None when no edit is made:
   * no editor, no stored ranges, ranges the editor refuses because they
   * overlap or leave the document, or an edit refused because the document
   * changed meanwhile.
   */
  function ReplaceResult(doc: string, ranges: seq<Range>, replaceText: string,
                         editorPresent: bool, concurrentlyModified: bool): Option<string>
  {
    var sorted := SortedRanges(ranges);
    if !editorPresent || ranges == [] || !ChainBelow(sorted, |doc|) || concurrentlyModified then None
    else Some(ApplyInOrder(doc, sorted, replaceText))
  }

  /** The earlier replace edits the document exactly as the current one does on the same ranges. */
  lemma ReplaceAgreesWithCurrent(doc: string, ranges: seq<Range>, replaceText: string,
                                 editorPresent: bool, concurrentlyModified: bool)
    ensures ReplaceResult(doc, ranges, replaceText, editorPresent, concurrentlyModified)
            == EditorActions.ReplaceResult(doc, AsResults(ranges), replaceText, editorPresent, concurrentlyModified)
  {
    assert ranges == [] <==> AsResults(ranges) == [];
  }

  /** Equal multisets of results have equal multisets of ranges. */
  lemma {:induction false} RangesOfPermutes(a: seq<MatchResult>, b: seq<MatchResult>)
    requires multiset(a) == multiset(b)
    ensures multiset(RangesOf(a)) == multiset(RangesOf(b))
    decreases |a|
  {
    if a == [] {
      assert |multiset(b)| == 0;
    } else {
      assert a[0] in multiset(b);
      var k :| 0 <= k < |b| && b[k] == a[0];
      var b' := b[..k] + b[k + 1..];
      RemoveOne(b, k);
      RemoveOne(a, 0);
      assert a[..0] + a[1..] == a[1..];
      RangesOfPermutes(a[1..], b');
    }
  }

  /** Taking out the element at `k` takes its range out of the ranges. */
  lemma RemoveOne(s: seq<MatchResult>, k: nat)
    requires k < |s|
    ensures multiset(s[..k] + s[k + 1..]) == multiset(s) - multiset{s[k]}
    ensures multiset(RangesOf(s)) == multiset(RangesOf(s[..k] + s[k + 1..])) + multiset{s[k].range}
  {
    assert s == s[..k] + [s[k]] + s[k + 1..];
    RangesOfConcat(s[..k] + [s[k]], s[k + 1..]);
    RangesOfConcat(s[..k], [s[k]]);
    RangesOfConcat(s[..k], s[k + 1..]);
  }

  lemma RangesOfConcat(a: seq<MatchResult>, b: seq<MatchResult>)
    ensures RangesOf(a + b) == RangesOf(a) + RangesOf(b)
  {
    var l, r := RangesOf(a + b), RangesOf(a) + RangesOf(b);
    forall i | 0 <= i < |l| ensures l[i] == r[i] {
      if i >= |a| {
        assert (a + b)[i] == b[i - |a|];
      }
    }
  }

  /** The stored ranges are reordered, not changed: the same ranges, by descending start. */
  lemma SortedRangesSortsAndPermutes(rs: seq<Range>)
    ensures multiset(SortedRanges(rs)) == multiset(rs)
    ensures RangesStartDescending(SortedRanges(rs))
  {
    var s := SortByStartDescending(AsResults(rs));
    SortSortsAndPermutes(AsResults(rs));
    RangesOfPermutes(s, AsResults(rs));
    var sr := SortedRanges(rs);
    forall i, j | 0 <= i < j < |sr| ensures sr[j].start <= sr[i].start {
      assert sr[i] == s[i].range && sr[j] == s[j].range;
    }
  }

  /**
   * Nonempty, pairwise disjoint ranges inside the document are replaced in
   * one edit, unless the document changed meanwhile: each range once, the
   * text between them kept.
   */
  lemma DisjointRangesReplaced(doc: string, ranges: seq<Range>, replaceText: string)
    requires ranges != []
    requires forall i :: 0 <= i < |ranges| ==> 0 <= ranges[i].start < ranges[i].end <= |doc|
    requires forall i, j :: 0 <= i < j < |ranges| ==> !Overlap(ranges[i], ranges[j])
    ensures ChainBelow(SortedRanges(ranges), |doc|)
    ensures ReplaceResult(doc, ranges, replaceText, true, false) == Some(Rebuild(doc, SortedRanges(ranges), replaceText))
  {
    var rs := AsResults(ranges);
    assert forall i :: 0 <= i < |rs| ==> rs[i].range == ranges[i];
    EditorActions.DisjointMatchesReplaced(doc, rs, replaceText);
    ReplaceAgreesWithCurrent(doc, ranges, replaceText, true, false);
  }

  /**
   * Two different stored ranges that overlap, such as a match and a match
   * nested inside it, make the editor refuse the whole edit.
   */
  lemma OverlapRefused(doc: string, ranges: seq<Range>, replaceText: string, i: nat, j: nat)
    requires i < |ranges| && j < |ranges| && ranges[i] != ranges[j]
    requires Overlap(ranges[i], ranges[j])
    ensures ReplaceResult(doc, ranges, replaceText, true, false) == None
  {
    var rs := AsResults(ranges);
    assert rs[i].range == ranges[i] && rs[j].range == ranges[j];
    EditorActions.OverlapRefused(doc, rs, replaceText, i, j);
    ReplaceAgreesWithCurrent(doc, ranges, replaceText, true, false);
  }

  // ---------------------------------------------------------------------------
  // Highlighting
  // ---------------------------------------------------------------------------

  /**
   * The ranges `highlightTextInEditor` stores: none without an editor, for
   * blank find text, when parsing threw, or when it gave no statements;
   * otherwise every node below the document root that matches the first
   * parsed statement, in pre-order.
   */
  function HighlightRanges(editorPresent: bool, docLength: nat, textToFind: string,
                           findOutcome: AstUtils.ParseOutcome, docTree: Node): seq<Range>
  {
    if !editorPresent || Trim(textToFind) == [] then []
    else match findOutcome
      case Threw => []
      case Parsed(st) => if st == [] then [] else VisitAll(docLength, docTree.astChildren, st[0])
  }

  /**
   * What a highlight stores is exactly the ranges of the nodes below the
   * root that match the first parsed statement, each compared as a single
   * node with the flag off, nodes inside earlier matches included.
   */
  lemma HighlightFindsMatchingNodes(docLength: nat, textToFind: string, st: seq<Node>, docTree: Node)
    requires !Blank(textToFind) && st != []
    ensures var r := HighlightRanges(true, docLength, textToFind, AstUtils.Parsed(st), docTree);
      var ns := AstSubtreesAll(docTree.astChildren);
      (forall n :: n in ns && LegacyEquivalence.NodesEqual(n, st[0], false) ==> NodeRange(docLength, n) in r)
      && (forall q :: q in r ==> exists n :: n in ns && ReportedAs(docLength, n, st[0], q))
  {
    var ns := AstSubtreesAll(docTree.astChildren);
    VisitAllIsPreorderFilter(docLength, docTree.astChildren, st[0]);
    MatchingRangesComplete(docLength, ns, st[0]);
    MatchingRangesSound(docLength, ns, st[0]);
  }

  /** Every stored range lies inside the document. */
  lemma HighlightRangesInDocument(editorPresent: bool, docLength: nat, textToFind: string,
                                  findOutcome: AstUtils.ParseOutcome, docTree: Node)
    ensures forall q :: q in HighlightRanges(editorPresent, docLength, textToFind, findOutcome, docTree)
              ==> InDocument(q, docLength)
  {
    if editorPresent && !Blank(textToFind) && findOutcome.Parsed? && findOutcome.statements != [] {
      var st := findOutcome.statements;
      var ns := AstSubtreesAll(docTree.astChildren);
      VisitAllIsPreorderFilter(docLength, docTree.astChildren, st[0]);
      MatchingRangesSound(docLength, ns, st[0]);
      forall q | q in MatchingRanges(docLength, ns, st[0]) ensures InDocument(q, docLength) {
        var n :| n in ns && ReportedAs(docLength, n, st[0], q);
      }
    }
  }

  // ---------------------------------------------------------------------------
  // The session state
  // ---------------------------------------------------------------------------

  class LegacySession {
    /** `findDecorationType`, created on activation; absent when there is none. */
    var decoration: Option<Handle>
    /** `matchedASTRanges`: the ranges of the last search, which a replace consumes. */
    var matchedASTRanges: seq<Range>
    /** The ranges the decoration type currently shows. */
    var highlighted: seq<Range>

    /** While there is a decoration type, it shows exactly the stored ranges. */
    predicate Consistent()
      reads this
    {
      decoration.Some? ==> highlighted == matchedASTRanges
    }

    /** Module load and activation: the decoration type `created`, no ranges. */
    constructor (created: Option<Handle>)
      ensures decoration == created && matchedASTRanges == [] && highlighted == []
      ensures Consistent()
    {
      decoration := created;
      matchedASTRanges := [];
      highlighted := [];
    }

    /**
     * `clearHighlights`: takes the highlights off (in the given editor, or in
     * every visible one when none is given, which one list of highlighted
     * ranges does not tell apart) and always empties the stored ranges.
     */
    method ClearHighlights()
      modifies this
      ensures matchedASTRanges == []
      ensures highlighted == if decoration.Some? then [] else old(highlighted)
      ensures decoration == old(decoration)
      ensures Consistent()
    {
      if decoration.Some? {
        highlighted := [];
      }
      if |matchedASTRanges| > 0 {
        matchedASTRanges := [];
      }
    }

    /** `highlightTextInEditor`, including its `catch` and `finally` paths. */
    method HighlightTextInEditor(editorPresent: bool, doc: string, textToFind: string,
                                 findOutcome: AstUtils.ParseOutcome, docTree: Node)
      modifies this
      ensures matchedASTRanges == HighlightRanges(editorPresent, |doc|, textToFind, findOutcome, docTree)
      ensures highlighted == if decoration.Some? then matchedASTRanges else old(highlighted)
      ensures decoration == old(decoration)
      ensures Consistent()
    {
      ClearHighlights();
      if !editorPresent {
        return;
      }
      var trimmed := Trim(textToFind);
      if |trimmed| == 0 {
        return;
      }
      var decorations: seq<Range> := [];
      if findOutcome.Threw? {
        ClearHighlights();
      } else if |findOutcome.statements| > 0 {
        var findNodeToMatch := findOutcome.statements[0];
        decorations := VisitChildren(|doc|, docTree, findNodeToMatch, []);
        matchedASTRanges := decorations;
      }
      if decoration.Some? {
        highlighted := decorations;
      }
    }

    /**
     * `replaceFoundMatches`: the document after the edit; the ranges are
     * cleared only when the edit is made, and kept when the editor refuses it.
     */
    method ReplaceFoundMatches(editorPresent: bool, doc: string, replaceText: string,
                               concurrentlyModified: bool) returns (newDoc: string)
      modifies this
      ensures var r := ReplaceResult(doc, old(matchedASTRanges), replaceText, editorPresent, concurrentlyModified);
        newDoc == (if r.Some? then r.value else doc)
        && matchedASTRanges == (if r.Some? then [] else old(matchedASTRanges))
        && highlighted == (if r.Some? && decoration.Some? then [] else old(highlighted))
      ensures decoration == old(decoration)
      ensures old(Consistent()) ==> Consistent()
    {
      newDoc := doc;
      if !editorPresent {
        return;
      }
      if |matchedASTRanges| == 0 {
        return;
      }
      var sortedRanges := SortedRanges(matchedASTRanges);
      if !ChainBelow(sortedRanges, |doc|) {
        return;
      }
      if concurrentlyModified {
        return;
      }
      newDoc := ApplyInOrder(doc, sortedRanges, replaceText);
      ClearHighlights();
    }
  }
}
