/**
 * `BitapMatcherImpl`: drives a main cursor and, when the motif has exact positions, a secondary
 * exact cursor over the same range in lockstep, and reports the positions where both match.
 */
module Matchers {
  import opened Wrappers
  import opened Automata
  import opened StateIterators

  /** Extending `before` by one code keeps every prefix of it a prefix of the result. */
  lemma PrefixesGrow(start: seq<int>, before: seq<int>, after: seq<int>)
    requires |start| <= |before| && before[..|start|] == start
    requires |after| == |before| + 1 && after[..|before|] == before
    ensures after[..|start|] == start
    ensures forall k :: 0 <= k <= |before| ==> after[..k] == before[..k]
  {
  }

  class Matcher {
    const mainState: StateIterator
    /** Java's `secondaryState`, `null` when the motif has no exact mask. */
    const secondaryState: StateIterator?

    /** The objects the matcher's cursors update. */
    ghost function Footprint(): set<object>
    {
      {mainState, mainState.R} + (if secondaryState == null then {} else {secondaryState, secondaryState.R})
    }

    /** Both cursors have a definite hit/miss reading for every input. */
    predicate Characterised()
    {
      mainState.Characterised() && (secondaryState != null ==> secondaryState.Characterised())
    }

    /** After consuming `s`, both cursors report a hit. */
    ghost predicate Accepts(s: seq<int>)
    {
      && AreCodes(mainState.masks, s) && mainState.HitAfter(s)
      && (secondaryState != null ==> AreCodes(secondaryState.masks, s) && secondaryState.HitAfter(s))
    }

    /** The cursors do not both accept the first `k` codes of `s`. */
    ghost predicate RejectedAt(s: seq<int>, k: int) {
      0 <= k <= |s| && !Accepts(s[..k])
    }

    /** The matcher's last step found a hit: Java's test in `findNext`. */
    predicate Hit()
      reads mainState, secondaryState
    {
      mainState.matched && (secondaryState == null || secondaryState.matched)
    }

    /** A raised `match` flag is one the automaton stands behind. */
    ghost predicate Sound(it: StateIterator)
      reads it, it.R
      requires it.Valid() && !it.failed
    {
      it.Characterised() && it.matched ==> it.HitAfter(it.consumed) && it.errors == it.Distance(it.consumed)
    }

    /** Both cursors are live, distinct and scan the same codes from the same place in the same
      * direction, and the secondary one is exact, as `BitapPattern`'s factories set them up. */
    ghost predicate Valid()
      reads Footprint()
    {
      && mainState.Valid() && !mainState.failed && Sound(mainState)
      && (secondaryState != null ==>
            && secondaryState != mainState && secondaryState.R != mainState.R
            && secondaryState.kind == ExactMatch && secondaryState.Valid() && !secondaryState.failed && Sound(secondaryState)
            && secondaryState.sequence == mainState.sequence
            && secondaryState.Dir() == mainState.Dir() && secondaryState.End() == mainState.End()
            && secondaryState.current == mainState.current
            && secondaryState.consumed == mainState.consumed)
    }

    /** Java's two constructors; the one-argument form passes `null`. */
    constructor (mainState: StateIterator, secondaryState: StateIterator?)
      requires mainState.Valid() && !mainState.failed && !mainState.matched
      requires secondaryState != null ==>
                 && secondaryState != mainState && secondaryState.R != mainState.R
                 && secondaryState.kind == ExactMatch && secondaryState.Valid() && !secondaryState.failed && !secondaryState.matched
                 && secondaryState.sequence == mainState.sequence
                 && secondaryState.Dir() == mainState.Dir() && secondaryState.End() == mainState.End()
                 && secondaryState.current == mainState.current
                 && secondaryState.consumed == mainState.consumed
      ensures Valid() && !Hit()
      ensures this.mainState == mainState && this.secondaryState == secondaryState
    {
      this.mainState := mainState;
      this.secondaryState := secondaryState;
    }

    /** One turn of `findNext`'s loop: step the main cursor and, if it consumed a code, the
      * secondary cursor over the same code. */
    method Advance() returns (r: Outcome<bool>)
      requires Valid()
      modifies Footprint()
      ensures r.Throws? ==> r.exception == IndexOutOfBounds
      ensures old(mainState.InRange()) && mainState.R.Length >= 1 ==> r.Ok? && mainState.InRange()
      ensures mainState.R.Length == 0 ==> (r.Throws? <==> old(mainState.current) != mainState.End())
      ensures r == Ok(true) ==> mainState.R.Length >= 1
      ensures r.Ok? ==> Valid()
      ensures r == Ok(false) ==> !Hit() && mainState.current == mainState.End()
                                 && mainState.consumed == old(mainState.consumed)
      ensures r == Ok(true) ==> && 0 <= mainState.Remaining() < old(mainState.Remaining())
                                && |mainState.consumed| == |old(mainState.consumed)| + 1
                                && mainState.consumed[..|old(mainState.consumed)|] == old(mainState.consumed)
                                && (Characterised() ==> (Hit() <==> Accepts(mainState.consumed)))
    {
      ghost var position := mainState.current;
      ghost var before := mainState.consumed;
      r := mainState.NextState();
      if r.Throws? || !r.value {
        return;
      }
      assert mainState.consumed == before + [mainState.sequence[position]];
      assert mainState.consumed[..|before|] == before;
      if secondaryState != null {
        assert secondaryState.Valid() && !secondaryState.failed;
        assert secondaryState.current == position != secondaryState.End();
        assert 0 <= position < |secondaryState.sequence|;
        var stepped := secondaryState.NextState();
        assert stepped.Ok? && stepped != Ok(false);
        assert stepped.value;
        assert stepped == Ok(true);
      }
    }

    /** `findNext`'s loop state since it started from the consumed codes `start`: the matcher is
      * valid, has consumed `start` and possibly more, and no longer prefix is accepted. */
    ghost predicate Scanning(start: seq<int>)
      reads Footprint()
    {
      && Valid() && |start| <= |mainState.consumed| && mainState.consumed[..|start|] == start
      && (Characterised() ==>
            forall k :: |start| < k <= |mainState.consumed| ==> RejectedAt(mainState.consumed, k))
    }

    /** One turn of `findNext`'s loop, seen from the codes `start` consumed before the call:
      * advances both cursors and tells whether the new prefix is the first one since `start` both
      * accept. */
    method Turn(ghost start: seq<int>) returns (r: Outcome<bool>)
      requires Scanning(start)
      modifies Footprint()
      ensures r.Throws? ==> r.exception == IndexOutOfBounds
      ensures old(mainState.InRange()) && mainState.R.Length >= 1 ==> r.Ok? && mainState.InRange()
      ensures mainState.R.Length == 0 ==> (r.Throws? <==> old(mainState.current) != mainState.End())
      ensures r == Ok(true) ==> mainState.R.Length >= 1
      ensures r.Ok? ==> Valid() && |start| <= |mainState.consumed| && mainState.consumed[..|start|] == start
      ensures r.Ok? && Characterised() ==>
                forall k :: |start| < k < |mainState.consumed| ==> RejectedAt(mainState.consumed, k)
      ensures r == Ok(false) ==> !Hit() && mainState.current == mainState.End()
      ensures r == Ok(false) && Characterised() ==>
                !Accepts(mainState.consumed) || mainState.consumed == start
      ensures r == Ok(true) ==> 0 <= mainState.Remaining() < old(mainState.Remaining())
                                && |start| < |mainState.consumed|
      ensures r == Ok(true) && Characterised() ==> (Hit() <==> Accepts(mainState.consumed))
      ensures r == Ok(true) && !Hit() ==> Scanning(start)
    {
      ghost var before := mainState.consumed;
      r := Advance();
      if r.Ok? && r.value {
        PrefixesGrow(start, before, mainState.consumed);
        if Characterised() {
          forall k | |start| < k < |mainState.consumed|
            ensures RejectedAt(mainState.consumed, k)
          {
            assert RejectedAt(before, k);
            assert mainState.consumed[..k] == before[..k];
          }
          assert mainState.consumed[..|mainState.consumed|] == mainState.consumed;
        }
      } else if r.Ok? && Characterised() && |start| < |before| {
        assert RejectedAt(before, |before|);
        assert before[..|before|] == before;
      }
    }

    /** Java's `findNext()`: steps the cursors until both match, returning the main cursor's
      * position, or -1 once the main cursor reaches the end of its range. Over the codes consumed
      * by this call, the reported step is the first at which both cursors accept. */
    method FindNext() returns (r: Outcome<int>)
      requires Valid()
      modifies Footprint()
      ensures r.Ok? ==> Valid()
      ensures r.Throws? ==> r.exception == IndexOutOfBounds
      ensures old(mainState.InRange()) && mainState.R.Length >= 1 ==> r.Ok? && mainState.InRange()
      ensures mainState.R.Length == 0 ==> (r.Throws? <==> old(mainState.current) != mainState.End())
      ensures r.Ok? && Hit() ==> r.value == mainState.CurrentPosition()
      ensures r.Ok? && !Hit() ==> r.value == -1 && mainState.current == mainState.End()
      ensures r.Ok? ==> |old(mainState.consumed)| <= |mainState.consumed|
                        && mainState.consumed[..|old(mainState.consumed)|] == old(mainState.consumed)
      ensures r.Ok? && Hit() ==> |old(mainState.consumed)| < |mainState.consumed|
      ensures r.Ok? && Characterised() ==> (Hit() <==> Accepts(mainState.consumed))
                                           || mainState.consumed == old(mainState.consumed)
      ensures r.Ok? && Characterised() ==>
                forall k :: |old(mainState.consumed)| < k < |mainState.consumed| ==> RejectedAt(mainState.consumed, k)
    {
      ghost var start := mainState.consumed;
      ghost var inRange := mainState.InRange();
      assert mainState.consumed[..|start|] == start;
      while true
        invariant Scanning(start)
        invariant inRange ==> mainState.InRange()
        invariant mainState.R.Length == 0 ==> mainState.current == old(mainState.current)
        decreases mainState.Remaining()
      {
        var more := Turn(start);
        if more.Throws? {
          r := Throws(more.exception);
          break;
        }
        if !more.value {
          r := Ok(-1);
          break;
        }
        if Hit() {
          r := Ok(mainState.CurrentPosition());
          break;
        }
      }
    }

    /** Java's `getNumberOfErrors()`: after a hit, the main cursor's distance over the codes it
      * has consumed. */
    function NumberOfErrors(): (r: int)
      reads Footprint()
      requires Valid()
      ensures Characterised() && Hit() ==> r == mainState.Distance(mainState.consumed)
    {
      mainState.errors
    }
  }
}
