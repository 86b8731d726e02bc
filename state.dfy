/**
 * The extension's shared state (src/state.ts): the decoration type used to
 * highlight matches and the results of the last search. The editor side of
 * the decoration type, what it currently shows and which types were
 * disposed, is kept beside it so that the editor actions can state what the
 * user sees.
 */
module State {
  import opened Syntax

  /** A decoration type handed out by the editor; only its identity matters. */
  datatype Handle = Handle(id: nat)

  /** The ranges of a list of results, in order. */
  function RangesOf(results: seq<MatchResult>): seq<Range> {
    seq(|results|, i requires 0 <= i < |results| => results[i].range)
  }

  class ExtensionState {
    /** `findDecorationType`: absent before activation and after deactivation. */
    var decoration: Option<Handle>
    /** `matchedResults`: the results of the last search, which a replace consumes. */
    var matchedResults: seq<MatchResult>
    /** The ranges the decoration type currently shows. */
    var highlighted: seq<Range>
    /** The decoration types disposed so far, oldest first. */
    var disposed: seq<Handle>

    /**
     * The highlights shown are exactly the stored results, nothing is stored
     * without a decoration type, and the live decoration type has not been
     * disposed.
     */
    predicate Consistent()
      reads this
    {
      highlighted == RangesOf(matchedResults)
      && (decoration.None? ==> matchedResults == [])
      && (decoration.Some? ==> decoration.value !in disposed)
    }

    /** The module's initial state: no decoration type, no results. */
    constructor ()
      ensures decoration == None && matchedResults == [] && highlighted == [] && disposed == []
      ensures Consistent()
    {
      decoration := None;
      matchedResults := [];
      highlighted := [];
      disposed := [];
    }

    /**
     * `initializeDecoration`: adopts the decoration type `created` the editor
     * makes, unless one is already live. The editor never hands out a
     * disposed type again.
     */
    method InitializeDecoration(created: Handle)
      requires created !in disposed
      modifies this
      ensures decoration == if old(decoration).Some? then old(decoration) else Some(created)
      ensures matchedResults == old(matchedResults) && highlighted == old(highlighted) && disposed == old(disposed)
      ensures old(Consistent()) ==> Consistent()
    {
      if decoration.None? {
        decoration := Some(created);
      }
    }

    /** `getDecorationType`: the live decoration type, or `None` where the source throws. */
    method GetDecorationType() returns (r: Option<Handle>)
      ensures r == decoration
    {
      r := decoration;
    }

    /** `getMatchedResults`: a copy of the stored results. */
    method GetMatchedResults() returns (r: seq<MatchResult>)
      ensures r == matchedResults
    {
      r := matchedResults;
    }

    /** `setMatchedResults`: replaces the stored results. */
    method SetMatchedResults(newResults: seq<MatchResult>)
      modifies this
      ensures matchedResults == newResults
      ensures decoration == old(decoration) && highlighted == old(highlighted) && disposed == old(disposed)
    {
      matchedResults := newResults;
    }

    /** `clearMatchedResults`: empties the stored results. */
    method ClearMatchedResults()
      modifies this
      ensures matchedResults == []
      ensures decoration == old(decoration) && highlighted == old(highlighted) && disposed == old(disposed)
    {
      if |matchedResults| > 0 {
        matchedResults := [];
      }
    }

    /** `editor.setDecorations(type, ranges)` for the live decoration type. */
    method SetDecorations(ranges: seq<Range>)
      modifies this
      ensures highlighted == ranges
      ensures decoration == old(decoration) && matchedResults == old(matchedResults) && disposed == old(disposed)
    {
      highlighted := ranges;
    }

    /**
     * `disposeDecoration`: disposes the live decoration type, which takes its
     * highlights off the editor, and forgets it.
     */
    method DisposeDecoration()
      modifies this
      ensures decoration == None
      ensures old(decoration).Some? ==> disposed == old(disposed) + [old(decoration).value] && highlighted == []
      ensures old(decoration).None? ==> disposed == old(disposed) && highlighted == old(highlighted)
      ensures matchedResults == old(matchedResults)
    {
      if decoration.Some? {
        disposed := disposed + [decoration.value];
        highlighted := [];
        decoration := None;
      }
    }

    /** `clearState`: clears the results, then disposes the decoration type. */
    method ClearState()
      modifies this
      ensures matchedResults == [] && decoration == None
      ensures old(decoration).Some? ==> disposed == old(disposed) + [old(decoration).value] && highlighted == []
      ensures old(decoration).None? ==> disposed == old(disposed) && highlighted == old(highlighted)
      ensures old(Consistent()) ==> Consistent()
    {
      ClearMatchedResults();
      DisposeDecoration();
    }
  }
}
