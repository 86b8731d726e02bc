/**
 * Replacing the stored matches: the results are sorted by descending start
 * (`Array.prototype.sort` is stable, so equal starts keep their order) and
 * each range is replaced by the same text. The editor applies the
 * replacements of one edit as if from the back of the document forwards, so
 * a replacement never moves the ranges still to be replaced.
 */
module Edits {
  import opened Syntax

  // The sort of `replaceFoundMatches`.

  /** Puts `x` before the first element that does not start after it. */
  function InsertByStart(x: MatchResult, s: seq<MatchResult>): seq<MatchResult> {
    if s == [] || s[0].range.start <= x.range.start then [x] + s
    else [s[0]] + InsertByStart(x, s[1..])
  }

  /** `[...results].sort((a, b) => b.range.start.compareTo(a.range.start))`. */
  function SortByStartDescending(s: seq<MatchResult>): seq<MatchResult> {
    if s == [] then [] else InsertByStart(s[0], SortByStartDescending(s[1..]))
  }

  predicate StartsDescending(s: seq<MatchResult>) {
    forall i, j :: 0 <= i < j < |s| ==> s[j].range.start <= s[i].range.start
  }

  /** The results that start at offset `v`, in order. */
  function StartingAt(s: seq<MatchResult>, v: int): seq<MatchResult> {
    if s == [] then [] else (if s[0].range.start == v then [s[0]] else []) + StartingAt(s[1..], v)
  }

  lemma {:induction false} InsertPermutes(x: MatchResult, s: seq<MatchResult>)
    ensures multiset(InsertByStart(x, s)) == multiset{x} + multiset(s)
  {
    if s != [] && s[0].range.start > x.range.start {
      InsertPermutes(x, s[1..]);
      assert s == [s[0]] + s[1..];
    }
  }

  /** Inserting into a list sorted by descending start keeps it sorted. */
  lemma {:induction false} InsertSorted(x: MatchResult, s: seq<MatchResult>)
    requires StartsDescending(s)
    ensures StartsDescending(InsertByStart(x, s))
  {
    if s != [] && s[0].range.start > x.range.start {
      var t := InsertByStart(x, s[1..]);
      InsertSorted(x, s[1..]);
      InsertPermutes(x, s[1..]);
      InsertTailBelow(x, s, t);
    }
  }

  /** Every element of the insertion into the tail starts no later than the head. */
  lemma InsertTailBelow(x: MatchResult, s: seq<MatchResult>, t: seq<MatchResult>)
    requires s != [] && s[0].range.start > x.range.start && StartsDescending(s) && StartsDescending(t)
    requires multiset(t) == multiset{x} + multiset(s[1..])
    ensures StartsDescending([s[0]] + t)
  {
    var r := [s[0]] + t;
    forall j | 0 < j < |r| ensures r[j].range.start <= s[0].range.start {
      assert r[j] == t[j - 1];
      assert r[j] in multiset(t);
      if r[j] != x {
        assert r[j] in multiset(s[1..]);
        var k :| 0 <= k < |s[1..]| && s[1..][k] == r[j];
        assert s[k + 1] == r[j];
      }
    }
    forall i, j | 0 <= i < j < |r| ensures r[j].range.start <= r[i].range.start {
      if i > 0 {
        assert r[i] == t[i - 1] && r[j] == t[j - 1];
      }
    }
  }

  /** The sort orders by descending start and keeps every result exactly once. */
  lemma {:induction false} SortSortsAndPermutes(s: seq<MatchResult>)
    ensures StartsDescending(SortByStartDescending(s))
    ensures multiset(SortByStartDescending(s)) == multiset(s)
  {
    if s != [] {
      SortSortsAndPermutes(s[1..]);
      InsertSorted(s[0], SortByStartDescending(s[1..]));
      InsertPermutes(s[0], SortByStartDescending(s[1..]));
      assert s == [s[0]] + s[1..];
    }
  }

  lemma {:induction false} InsertStable(x: MatchResult, s: seq<MatchResult>, v: int)
    ensures StartingAt(InsertByStart(x, s), v) == (if x.range.start == v then [x] else []) + StartingAt(s, v)
  {
    if s == [] || s[0].range.start <= x.range.start {
      StartingAtCons(x, s, v);
    } else {
      var hx := if x.range.start == v then [x] else [];
      var h0 := if s[0].range.start == v then [s[0]] else [];
      StartingAtCons(s[0], InsertByStart(x, s[1..]), v);
      InsertStable(x, s[1..], v);
      StartingAtCons(s[0], s[1..], v);
      assert s == [s[0]] + s[1..];
      assert hx == [] || h0 == [];
      assert h0 + (hx + StartingAt(s[1..], v)) == hx + (h0 + StartingAt(s[1..], v));
    }
  }

  lemma StartingAtCons(y: MatchResult, t: seq<MatchResult>, v: int)
    ensures StartingAt([y] + t, v) == (if y.range.start == v then [y] else []) + StartingAt(t, v)
  {
    assert ([y] + t)[1..] == t;
  }

  /** The sort is stable: the results with one start keep their relative order. */
  lemma {:induction false} SortStable(s: seq<MatchResult>, v: int)
    ensures StartingAt(SortByStartDescending(s), v) == StartingAt(s, v)
  {
    if s != [] {
      SortStable(s[1..], v);
      InsertStable(s[0], SortByStartDescending(s[1..]), v);
    }
  }

  // Applying the replacements.

  /**
   * Each range lies inside `[0, len)` and ends no later than the previous
   * one starts: the order that lets each replacement leave the ranges after
   * it in the list where they were.
   */
  predicate ChainBelow(rs: seq<Range>, len: int) {
    rs == [] || (0 <= rs[0].start <= rs[0].end <= len && ChainBelow(rs[1..], rs[0].start))
  }

  /** `doc` with the range `r` replaced by `t`. */
  function Splice(doc: string, r: Range, t: string): (s: string)
    requires InDocument(r, |doc|)
    ensures |s| == |doc| - (r.end - r.start) + |t|
  {
    doc[..r.start] + t + doc[r.end..]
  }

  lemma ChainWeaken(rs: seq<Range>, a: int, b: int)
    requires ChainBelow(rs, a) && a <= b
    ensures ChainBelow(rs, b)
  {}

  /** The replacements applied one after another, in the order given. */
  function ApplyInOrder(doc: string, rs: seq<Range>, t: string): string
    requires ChainBelow(rs, |doc|)
    decreases |rs|
  {
    if rs == [] then doc
    else
      var spliced := Splice(doc, rs[0], t);
      ChainWeaken(rs[1..], rs[0].start, |spliced|);
      ApplyInOrder(spliced, rs[1..], t)
  }

  /**
   * The reference result: the text before the last-listed range with the
   * remaining replacements made in it, then the replacement and the text
   * after the first-listed range's end, and so on: every gap between ranges
   * kept once.
   */
  function Rebuild(doc: string, rs: seq<Range>, t: string): string
    requires ChainBelow(rs, |doc|)
    decreases |rs|
  {
    if rs == [] then doc
    else Rebuild(doc[..rs[0].start], rs[1..], t) + t + doc[rs[0].end..]
  }

  /** Replacements made in a prefix leave the text after it alone. */
  lemma {:induction false} ApplyInPrefix(p: string, s: string, rs: seq<Range>, t: string)
    requires ChainBelow(rs, |p|)
    ensures ChainBelow(rs, |p + s|)
    ensures ApplyInOrder(p + s, rs, t) == ApplyInOrder(p, rs, t) + s
    decreases |rs|
  {
    ChainWeaken(rs, |p|, |p + s|);
    if rs != [] {
      var r := rs[0];
      assert Splice(p + s, r, t) == Splice(p, r, t) + s by {
        assert (p + s)[..r.start] == p[..r.start];
        assert (p + s)[r.end..] == p[r.end..] + s;
      }
      ChainWeaken(rs[1..], r.start, |Splice(p, r, t)|);
      ApplyInPrefix(Splice(p, r, t), s, rs[1..], t);
    }
  }

  /** Replacing one after another yields the gap-by-gap reference result. */
  lemma {:induction false} ApplyInOrderRebuilds(doc: string, rs: seq<Range>, t: string)
    requires ChainBelow(rs, |doc|)
    ensures ApplyInOrder(doc, rs, t) == Rebuild(doc, rs, t)
    decreases |rs|
  {
    if rs != [] {
      var r := rs[0];
      var p := doc[..r.start];
      var s := t + doc[r.end..];
      assert Splice(doc, r, t) == p + s;
      ChainWeaken(rs[1..], r.start, |Splice(doc, r, t)|);
      ApplyInPrefix(p, s, rs[1..], t);
      ApplyInOrderRebuilds(p, rs[1..], t);
      assert Rebuild(p, rs[1..], t) + s == Rebuild(p, rs[1..], t) + t + doc[r.end..];
    }
  }

  /** The number of characters the ranges cover. */
  function CoveredLength(rs: seq<Range>): int {
    if rs == [] then 0 else (rs[0].end - rs[0].start) + CoveredLength(rs[1..])
  }

  /** Each replacement removes its range and adds the replacement text once. */
  lemma {:induction false} RebuildLength(doc: string, rs: seq<Range>, t: string)
    requires ChainBelow(rs, |doc|)
    ensures |Rebuild(doc, rs, t)| == |doc| - CoveredLength(rs) + |rs| * |t|
    decreases |rs|
  {
    if rs != [] {
      RebuildLength(doc[..rs[0].start], rs[1..], t);
    }
  }

  /** The text before the last-listed range and after the first-listed one is untouched. */
  lemma {:induction false} RebuildKeepsEnds(doc: string, rs: seq<Range>, t: string)
    requires ChainBelow(rs, |doc|) && rs != []
    ensures var r := Rebuild(doc, rs, t);
      var lo := rs[|rs| - 1].start; var hi := rs[0].end;
      0 <= lo <= |doc| && lo <= |r| && r[..lo] == doc[..lo]
      && |doc| - hi <= |r| && r[|r| - (|doc| - hi)..] == doc[hi..]
    decreases |rs|
  {
    var r0 := rs[0];
    var p := doc[..r0.start];
    var inner := Rebuild(p, rs[1..], t);
    var r := inner + t + doc[r0.end..];
    assert Rebuild(doc, rs, t) == r;
    var lo := rs[|rs| - 1].start;
    if |rs| > 1 {
      RebuildKeepsEnds(p, rs[1..], t);
      assert rs[1..][|rs[1..]| - 1] == rs[|rs| - 1];
      assert inner[..lo] == p[..lo];
    } else {
      assert inner == p;
    }
    assert r[..lo] == inner[..lo];
    assert r[|r| - (|doc| - r0.end)..] == doc[r0.end..];
  }

  // The editor's check that the ranges of one edit do not overlap.

  /** Two ranges share at least one character. */
  predicate Overlap(a: Range, b: Range) {
    a.start < b.end && b.start < a.end
  }

  predicate PairwiseDisjoint(rs: seq<Range>) {
    forall i, j :: 0 <= i < j < |rs| ==> !Overlap(rs[i], rs[j])
  }

  predicate Nonempty(rs: seq<Range>) {
    forall i :: 0 <= i < |rs| ==> rs[i].start < rs[i].end
  }

  predicate RangesStartDescending(rs: seq<Range>) {
    forall i, j :: 0 <= i < j < |rs| ==> rs[j].start <= rs[i].start
  }

  /** A chain is disjoint, and its ranges start in descending order. */
  lemma {:induction false} ChainIsDisjoint(rs: seq<Range>, len: int)
    requires ChainBelow(rs, len)
    ensures PairwiseDisjoint(rs) && RangesStartDescending(rs)
    ensures forall i :: 0 <= i < |rs| ==> rs[i].end <= len
  {
    if rs != [] {
      ChainIsDisjoint(rs[1..], rs[0].start);
      forall i, j | 0 <= i < j < |rs| ensures !Overlap(rs[i], rs[j]) && rs[j].start <= rs[i].start {
        assert rs[j] == rs[1..][j - 1];
        if i > 0 {
          assert rs[i] == rs[1..][i - 1];
        }
      }
      forall i | 0 <= i < |rs| ensures rs[i].end <= len {
        if i > 0 {
          assert rs[i] == rs[1..][i - 1];
        }
      }
    }
  }

  /** Nonempty ranges inside the document, in descending order and pairwise disjoint, form a chain. */
  lemma {:induction false} DisjointIsChain(rs: seq<Range>, len: int)
    requires RangesStartDescending(rs) && PairwiseDisjoint(rs) && Nonempty(rs)
    requires forall i :: 0 <= i < |rs| ==> 0 <= rs[i].start && rs[i].end <= len
    ensures ChainBelow(rs, len)
  {
    if rs != [] {
      var tail := rs[1..];
      assert forall i :: 0 <= i < |tail| ==> tail[i] == rs[i + 1];
      if tail != [] {
        assert !Overlap(rs[0], rs[1]);
      }
      DisjointIsChain(tail, rs[0].start);
    }
  }
}
