/**
 * The AST search of the highlight command: every child list of the document
 * tree is scanned left to right for a run of consecutive siblings that
 * matches the parsed find statements node by node; a run, once found, is
 * reported and skipped as a whole, and the search then descends into every
 * child, including the ones inside a reported run.
 */
module SequenceMatcher {
  import opened Syntax
  import opened ApproxRange
  import opened AstUtils

  /** `siblings[i..i + |pattern|]` matches `pattern` node by node. */
  predicate MatchesAt(siblings: seq<Node>, pattern: seq<Node>, i: int, ignore: bool) {
    0 <= i && i + |pattern| <= |siblings|
    && forall j :: 0 <= j < |pattern| ==> NodesEqual(siblings[i + j], pattern[j], ignore)
  }

  /** The starts of the leftmost non-overlapping runs at or after `i`, found greedily. */
  function GreedyFrom(siblings: seq<Node>, pattern: seq<Node>, ignore: bool, i: nat): seq<nat>
    requires |pattern| > 0
    decreases |siblings| - i
  {
    if i + |pattern| > |siblings| then []
    else if MatchesAt(siblings, pattern, i, ignore) then [i] + GreedyFrom(siblings, pattern, ignore, i + |pattern|)
    else GreedyFrom(siblings, pattern, ignore, i + 1)
  }

  /** Every start leaves room for a whole run. */
  predicate RunsFit(starts: seq<nat>, k: nat, len: nat) {
    forall n :: 0 <= n < |starts| ==> starts[n] + k <= len
  }

  /** The range from the start of a run's first node to the end of its last one. */
  function RunRange(docLength: nat, siblings: seq<Node>, t: nat, k: nat): (r: Range)
    requires 0 < k && t + k <= |siblings|
    ensures InDocument(r, docLength)
    ensures siblings[t].start <= siblings[t + k - 1].end <= docLength
      ==> r == Range(siblings[t].start, siblings[t + k - 1].end)
  {
    DocumentRange(docLength, siblings[t].start, siblings[t + k - 1].end)
  }

  /** The results reported for the runs starting at `starts`, in order. */
  function RunResults(docLength: nat, siblings: seq<Node>, k: nat, starts: seq<nat>): (r: seq<MatchResult>)
    requires 0 < k && RunsFit(starts, k, |siblings|)
    ensures |r| == |starts|
  {
    seq(|starts|, n requires 0 <= n < |starts| => MatchResult(RunRange(docLength, siblings, starts[n], k), Ast))
  }

  /** The results of `findASTSequences` on one child list. */
  function SequenceResults(docLength: nat, siblings: seq<Node>, pattern: seq<Node>, ignore: bool): (r: seq<MatchResult>)
    requires |pattern| > 0
  {
    GreedyFits(siblings, pattern, ignore);
    RunResults(docLength, siblings, |pattern|, GreedyFrom(siblings, pattern, ignore, 0))
  }

  lemma GreedyFits(siblings: seq<Node>, pattern: seq<Node>, ignore: bool)
    requires |pattern| > 0
    ensures RunsFit(GreedyFrom(siblings, pattern, ignore, 0), |pattern|, |siblings|)
  {
    GreedySound(siblings, pattern, ignore, 0);
    var g := GreedyFrom(siblings, pattern, ignore, 0);
    forall n | 0 <= n < |g|
      ensures g[n] + |pattern| <= |siblings|
    {
      assert MatchesAt(siblings, pattern, g[n], ignore);
    }
  }

  /** One unfolding of `GreedyFrom`, with the match test passed in. */
  lemma GreedyStep(siblings: seq<Node>, pattern: seq<Node>, ignore: bool, i: nat, m: bool)
    requires |pattern| > 0 && m == MatchesAt(siblings, pattern, i, ignore)
    ensures GreedyFrom(siblings, pattern, ignore, i) ==
      if i + |pattern| > |siblings| then []
      else if m then [i] + GreedyFrom(siblings, pattern, ignore, i + |pattern|)
      else GreedyFrom(siblings, pattern, ignore, i + 1)
  {}

  /** Every start in `g` is at or after `lo` and begins a matching run, and each run ends before the next begins. */
  predicate SpacedRuns(siblings: seq<Node>, pattern: seq<Node>, ignore: bool, lo: int, g: seq<nat>) {
    (forall n :: 0 <= n < |g| ==> lo <= g[n] && MatchesAt(siblings, pattern, g[n], ignore))
    && (forall n :: 0 <= n < |g| - 1 ==> g[n] + |pattern| <= g[n + 1])
  }

  /** The greedy scan reports well-spaced matching runs only. */
  lemma {:induction false} GreedySound(siblings: seq<Node>, pattern: seq<Node>, ignore: bool, i: nat)
    requires |pattern| > 0
    ensures SpacedRuns(siblings, pattern, ignore, i, GreedyFrom(siblings, pattern, ignore, i))
    decreases |siblings| - i, 1
  {
    if i + |pattern| <= |siblings| {
      if MatchesAt(siblings, pattern, i, ignore) {
        SoundFromRun(siblings, pattern, ignore, i);
      } else {
        SoundPastMiss(siblings, pattern, ignore, i);
      }
    }
  }

  lemma {:induction false} SoundFromRun(siblings: seq<Node>, pattern: seq<Node>, ignore: bool, i: nat)
    requires |pattern| > 0 && MatchesAt(siblings, pattern, i, ignore)
    ensures SpacedRuns(siblings, pattern, ignore, i, GreedyFrom(siblings, pattern, ignore, i))
    decreases |siblings| - i, 0
  {
    GreedySound(siblings, pattern, ignore, i + |pattern|);
    GreedyMatchStep(siblings, pattern, ignore, i);
  }

  lemma {:induction false} SoundPastMiss(siblings: seq<Node>, pattern: seq<Node>, ignore: bool, i: nat)
    requires |pattern| > 0 && i + |pattern| <= |siblings| && !MatchesAt(siblings, pattern, i, ignore)
    ensures SpacedRuns(siblings, pattern, ignore, i, GreedyFrom(siblings, pattern, ignore, i))
    decreases |siblings| - i, 0
  {
    GreedyStep(siblings, pattern, ignore, i, false);
    GreedySound(siblings, pattern, ignore, i + 1);
  }

  /** The inductive step of `GreedySound` when a run starts at `i`. */
  lemma GreedyMatchStep(siblings: seq<Node>, pattern: seq<Node>, ignore: bool, i: nat)
    requires |pattern| > 0 && MatchesAt(siblings, pattern, i, ignore)
    requires SpacedRuns(siblings, pattern, ignore, i + |pattern|, GreedyFrom(siblings, pattern, ignore, i + |pattern|))
    ensures SpacedRuns(siblings, pattern, ignore, i, GreedyFrom(siblings, pattern, ignore, i))
  {
    var rest := GreedyFrom(siblings, pattern, ignore, i + |pattern|);
    GreedyStep(siblings, pattern, ignore, i, true);
    var g := [i] + rest;
    assert GreedyFrom(siblings, pattern, ignore, i) == g;
    forall n | 0 <= n < |g|
      ensures i <= g[n] && MatchesAt(siblings, pattern, g[n], ignore)
    {
      if n > 0 {
        assert g[n] == rest[n - 1];
      }
    }
    forall n | 0 <= n < |g| - 1
      ensures g[n] + |pattern| <= g[n + 1]
    {
      assert g[n + 1] == rest[n];
      if n > 0 {
        assert g[n] == rest[n - 1];
      }
    }
  }

  /** Position `p` lies inside one of the runs of length `k` starting at `g`. */
  predicate Covered(g: seq<nat>, p: int, k: nat) {
    exists n :: 0 <= n < |g| && g[n] <= p < g[n] + k
  }

  /** A matching position at or after `i` lies inside one of the reported runs: none is missed. */
  lemma {:induction false} GreedyCovers(siblings: seq<Node>, pattern: seq<Node>, ignore: bool, i: nat, p: int)
    requires |pattern| > 0 && i <= p && MatchesAt(siblings, pattern, p, ignore)
    ensures Covered(GreedyFrom(siblings, pattern, ignore, i), p, |pattern|)
    decreases |siblings| - i, 1
  {
    if MatchesAt(siblings, pattern, i, ignore) {
      CoversFromRun(siblings, pattern, ignore, i, p);
    } else {
      CoversPastMiss(siblings, pattern, ignore, i, p);
    }
  }

  lemma {:induction false} CoversFromRun(siblings: seq<Node>, pattern: seq<Node>, ignore: bool, i: nat, p: int)
    requires |pattern| > 0 && i <= p && MatchesAt(siblings, pattern, p, ignore) && MatchesAt(siblings, pattern, i, ignore)
    ensures Covered(GreedyFrom(siblings, pattern, ignore, i), p, |pattern|)
    decreases |siblings| - i, 0
  {
    var k := |pattern|;
    GreedyStep(siblings, pattern, ignore, i, true);
    var rest := GreedyFrom(siblings, pattern, ignore, i + k);
    if p >= i + k {
      GreedyCovers(siblings, pattern, ignore, i + k, p);
      CoveredCons(i, rest, p, k);
    } else {
      assert ([i] + rest)[0] == i;
    }
  }

  lemma {:induction false} CoversPastMiss(siblings: seq<Node>, pattern: seq<Node>, ignore: bool, i: nat, p: int)
    requires |pattern| > 0 && i <= p && MatchesAt(siblings, pattern, p, ignore) && !MatchesAt(siblings, pattern, i, ignore)
    ensures Covered(GreedyFrom(siblings, pattern, ignore, i), p, |pattern|)
    decreases |siblings| - i, 0
  {
    GreedyStep(siblings, pattern, ignore, i, false);
    GreedyCovers(siblings, pattern, ignore, i + 1, p);
  }

  lemma CoveredCons(t: nat, rest: seq<nat>, p: int, k: nat)
    requires Covered(rest, p, k)
    ensures Covered([t] + rest, p, k)
  {
    var n :| 0 <= n < |rest| && rest[n] <= p < rest[n] + k;
    assert ([t] + rest)[n + 1] == rest[n];
  }

  /** The first reported run is the leftmost match at or after `i`. */
  lemma LeftmostFirst(siblings: seq<Node>, pattern: seq<Node>, ignore: bool, i: nat, p: int)
    requires |pattern| > 0 && i <= p && MatchesAt(siblings, pattern, p, ignore)
    ensures var g := GreedyFrom(siblings, pattern, ignore, i);
      |g| > 0 && g[0] <= p
  {
    GreedyCovers(siblings, pattern, ignore, i, p);
    GreedySound(siblings, pattern, ignore, i);
    var g := GreedyFrom(siblings, pattern, ignore, i);
    assert Covered(g, p, |pattern|);
    var n :| 0 <= n < |g| && g[n] <= p < g[n] + |pattern|;
    GreedyIncreasing(g, |pattern|, n);
  }

  lemma {:induction false} GreedyIncreasing(g: seq<nat>, k: nat, n: nat)
    requires n < |g| && forall t :: 0 <= t < |g| - 1 ==> g[t] + k <= g[t + 1]
    ensures g[0] <= g[n]
  {
    if n > 0 {
      GreedyIncreasing(g, k, n - 1);
    }
  }

  /** A run list shorter than the pattern has no match. */
  lemma ShortListsHaveNoRuns(docLength: nat, siblings: seq<Node>, pattern: seq<Node>, ignore: bool)
    requires 0 < |pattern| && |siblings| < |pattern|
    ensures SequenceResults(docLength, siblings, pattern, ignore) == []
  {}

  /** The results of one child list are AST results inside the document, and distinct runs do not overlap. */
  lemma SequenceResultsInDocument(docLength: nat, siblings: seq<Node>, pattern: seq<Node>, ignore: bool)
    requires |pattern| > 0
    ensures forall r :: r in SequenceResults(docLength, siblings, pattern, ignore) ==>
      r.mode == Ast && InDocument(r.range, docLength)
  {}

  /** [a, a, a] against [a, a]: one run at 0, and the overlapping one at 1 is skipped. */
  lemma {:induction false} ExampleOverlappingRunSkipped(a: Node, ignore: bool)
    ensures GreedyFrom([a, a, a], [a, a], ignore, 0) == [0]
  {
    Reflexive(a, ignore);
    assert MatchesAt([a, a, a], [a, a], 0, ignore);
    assert GreedyFrom([a, a, a], [a, a], ignore, 2) == [];
  }

  /** `findASTSequences`' inner loop: compares node by node and stops at the first mismatch. */
  method SequenceMatchAt(siblings: seq<Node>, pattern: seq<Node>, i: nat, ignore: bool) returns (sequenceMatch: bool)
    requires i + |pattern| <= |siblings|
    ensures sequenceMatch == MatchesAt(siblings, pattern, i, ignore)
  {
    sequenceMatch := true;
    var j := 0;
    while j < |pattern|
      invariant 0 <= j <= |pattern|
      invariant forall t :: 0 <= t < j ==> NodesEqual(siblings[i + t], pattern[t], ignore)
    {
      if !AreNodesBasicallyEqual(Some(siblings[i + j]), Some(pattern[j]), ignore) {
        sequenceMatch := false;
        break;
      }
      j := j + 1;
    }
  }

  lemma RunResultsAppend(docLength: nat, siblings: seq<Node>, k: nat, starts: seq<nat>, t: nat)
    requires 0 < k && RunsFit(starts, k, |siblings|) && t + k <= |siblings|
    ensures RunsFit(starts + [t], k, |siblings|)
    ensures RunResults(docLength, siblings, k, starts + [t])
      == RunResults(docLength, siblings, k, starts) + [MatchResult(RunRange(docLength, siblings, t, k), Ast)]
  {
    assert forall n :: 0 <= n < |starts| ==> (starts + [t])[n] == starts[n];
  }

  /** `findASTSequences` on one child list. */
  method FindASTSequences(docLength: nat, siblings: seq<Node>, pattern: seq<Node>, ignore: bool)
    returns (found: seq<MatchResult>)
    requires |pattern| > 0
    ensures found == SequenceResults(docLength, siblings, pattern, ignore)
  {
    found := [];
    var k := |pattern|;
    if |siblings| < k {
      return;
    }
    ghost var starts: seq<nat> := [];
    var i: nat := 0;
    while i <= |siblings| - k
      invariant i <= |siblings|
      invariant RunsFit(starts, k, |siblings|)
      invariant GreedyFrom(siblings, pattern, ignore, 0) == starts + GreedyFrom(siblings, pattern, ignore, i)
      invariant found == RunResults(docLength, siblings, k, starts)
      decreases |siblings| - i
    {
      ghost var i0, starts0 := i, starts;
      var m := SequenceMatchAt(siblings, pattern, i, ignore);
      if m {
        RunResultsAppend(docLength, siblings, k, starts, i);
        found := found + [MatchResult(RunRange(docLength, siblings, i, k), Ast)];
        starts := starts + [i];
        i := i + (k - 1);
      }
      i := i + 1;
      GreedyAdvance(siblings, pattern, ignore, starts0, i0, m, starts, i);
    }
    GreedyDone(siblings, pattern, ignore, starts, i);
  }

  /** One iteration of the scan keeps the runs found so far a prefix of the greedy runs from 0. */
  lemma GreedyAdvance(siblings: seq<Node>, pattern: seq<Node>, ignore: bool, starts: seq<nat>, i: nat, m: bool,
                      starts': seq<nat>, i': nat)
    requires |pattern| > 0 && i + |pattern| <= |siblings| && m == MatchesAt(siblings, pattern, i, ignore)
    requires GreedyFrom(siblings, pattern, ignore, 0) == starts + GreedyFrom(siblings, pattern, ignore, i)
    requires starts' == (if m then starts + [i] else starts) && i' == (if m then i + |pattern| else i + 1)
    ensures GreedyFrom(siblings, pattern, ignore, 0) == starts' + GreedyFrom(siblings, pattern, ignore, i')
  {
    GreedyStep(siblings, pattern, ignore, i, m);
    if m {
      var rest := GreedyFrom(siblings, pattern, ignore, i + |pattern|);
      assert starts + ([i] + rest) == (starts + [i]) + rest;
    }
  }

  /** Once no run fits, the runs found so far are all of them. */
  lemma GreedyDone(siblings: seq<Node>, pattern: seq<Node>, ignore: bool, starts: seq<nat>, i: nat)
    requires |pattern| > 0 && |siblings| < i + |pattern|
    requires GreedyFrom(siblings, pattern, ignore, 0) == starts + GreedyFrom(siblings, pattern, ignore, i)
    ensures GreedyFrom(siblings, pattern, ignore, 0) == starts
  {
    assert starts + [] == starts;
  }

  /** `visit`: the runs in `n`'s child list, then the search of every child in order. */
  function VisitResults(docLength: nat, n: Node, pattern: seq<Node>, ignore: bool): seq<MatchResult>
    requires |pattern| > 0
    decreases n, 1
  {
    SequenceResults(docLength, n.children, pattern, ignore) + VisitAll(docLength, n.children, pattern, ignore)
  }

  /** `children.forEach(visit)`. */
  function VisitAll(docLength: nat, cs: seq<Node>, pattern: seq<Node>, ignore: bool): seq<MatchResult>
    requires |pattern| > 0
    decreases cs, 0
  {
    if cs == [] then [] else VisitResults(docLength, cs[0], pattern, ignore) + VisitAll(docLength, cs[1..], pattern, ignore)
  }

  /** `visit`, with the shared result list replaced by the list each call returns. */
  method Visit(docLength: nat, n: Node, pattern: seq<Node>, ignore: bool) returns (found: seq<MatchResult>)
    requires |pattern| > 0
    ensures found == VisitResults(docLength, n, pattern, ignore)
    decreases n, 1
  {
    found := FindASTSequences(docLength, n.children, pattern, ignore);
    var idx := 0;
    while idx < |n.children|
      invariant 0 <= idx <= |n.children|
      invariant found + VisitAll(docLength, n.children[idx..], pattern, ignore) == VisitResults(docLength, n, pattern, ignore)
    {
      var c := n.children[idx];
      assert c in n.children;
      var sub := Visit(docLength, c, pattern, ignore);
      assert n.children[idx..][1..] == n.children[idx + 1..];
      found := found + sub;
      idx := idx + 1;
    }
  }

  // A reference definition: the child lists of every node of the tree, in
  // pre-order, each scanned on its own.

  /** The nodes of the tree rooted at `n`, in pre-order. */
  function Subtrees(n: Node): (r: seq<Node>)
    ensures |r| > 0 && r[0] == n
    decreases n, 1
  {
    [n] + SubtreesAll(n.children)
  }

  function SubtreesAll(cs: seq<Node>): seq<Node>
    decreases cs, 0
  {
    if cs == [] then [] else Subtrees(cs[0]) + SubtreesAll(cs[1..])
  }

  /** The runs of each node's child list, concatenated in order. */
  function ScanEach(docLength: nat, ns: seq<Node>, pattern: seq<Node>, ignore: bool): seq<MatchResult>
    requires |pattern| > 0
  {
    if ns == [] then [] else SequenceResults(docLength, ns[0].children, pattern, ignore) + ScanEach(docLength, ns[1..], pattern, ignore)
  }

  lemma {:induction false} ScanEachAppend(docLength: nat, a: seq<Node>, b: seq<Node>, pattern: seq<Node>, ignore: bool)
    requires |pattern| > 0
    ensures ScanEach(docLength, a + b, pattern, ignore) == ScanEach(docLength, a, pattern, ignore) + ScanEach(docLength, b, pattern, ignore)
  {
    if a == [] {
      assert a + b == b;
    } else {
      assert (a + b)[0] == a[0];
      assert (a + b)[1..] == a[1..] + b;
      ScanEachAppend(docLength, a[1..], b, pattern, ignore);
    }
  }

  /** The search reports exactly the runs of every child list of the tree, in pre-order. */
  lemma {:induction false} VisitIsPreorderScan(docLength: nat, n: Node, pattern: seq<Node>, ignore: bool)
    requires |pattern| > 0
    ensures VisitResults(docLength, n, pattern, ignore) == ScanEach(docLength, Subtrees(n), pattern, ignore)
    decreases n, 1
  {
    VisitAllIsPreorderScan(docLength, n.children, pattern, ignore);
    ScanEachAppend(docLength, [n], SubtreesAll(n.children), pattern, ignore);
  }

  lemma {:induction false} VisitAllIsPreorderScan(docLength: nat, cs: seq<Node>, pattern: seq<Node>, ignore: bool)
    requires |pattern| > 0
    ensures VisitAll(docLength, cs, pattern, ignore) == ScanEach(docLength, SubtreesAll(cs), pattern, ignore)
    decreases cs, 0
  {
    if cs != [] {
      VisitIsPreorderScan(docLength, cs[0], pattern, ignore);
      VisitAllIsPreorderScan(docLength, cs[1..], pattern, ignore);
      ScanEachAppend(docLength, Subtrees(cs[0]), SubtreesAll(cs[1..]), pattern, ignore);
    }
  }

  /** Nested search: whatever the search of a child finds, the search of its parent reports too. */
  lemma {:induction false} ChildResultsIncluded(docLength: nat, n: Node, pattern: seq<Node>, ignore: bool, idx: nat, r: MatchResult)
    requires |pattern| > 0 && idx < |n.children|
    requires r in VisitResults(docLength, n.children[idx], pattern, ignore)
    ensures r in VisitResults(docLength, n, pattern, ignore)
  {
    VisitAllIncludes(docLength, n.children, pattern, ignore, idx, r);
  }

  lemma {:induction false} VisitAllIncludes(docLength: nat, cs: seq<Node>, pattern: seq<Node>, ignore: bool, idx: nat, r: MatchResult)
    requires |pattern| > 0 && idx < |cs|
    requires r in VisitResults(docLength, cs[idx], pattern, ignore)
    ensures r in VisitAll(docLength, cs, pattern, ignore)
    decreases idx
  {
    if idx > 0 {
      assert cs[1..][idx - 1] == cs[idx];
      VisitAllIncludes(docLength, cs[1..], pattern, ignore, idx - 1, r);
    }
  }

  /** Every result of the search is an AST result inside the document. */
  lemma {:induction false} VisitResultsInDocument(docLength: nat, n: Node, pattern: seq<Node>, ignore: bool)
    requires |pattern| > 0
    ensures forall r :: r in VisitResults(docLength, n, pattern, ignore) ==> r.mode == Ast && InDocument(r.range, docLength)
    decreases n, 1
  {
    SequenceResultsInDocument(docLength, n.children, pattern, ignore);
    VisitAllInDocument(docLength, n.children, pattern, ignore);
  }

  lemma {:induction false} VisitAllInDocument(docLength: nat, cs: seq<Node>, pattern: seq<Node>, ignore: bool)
    requires |pattern| > 0
    ensures forall r :: r in VisitAll(docLength, cs, pattern, ignore) ==> r.mode == Ast && InDocument(r.range, docLength)
    decreases cs, 0
  {
    if cs != [] {
      VisitResultsInDocument(docLength, cs[0], pattern, ignore);
      VisitAllInDocument(docLength, cs[1..], pattern, ignore);
    }
  }
}
