/**
 * `BitapMatcherFilter`: wraps another matcher and drops the echoes an indel search reports next to
 * a better hit, looking at three consecutive reports through a sliding window.
 */
module MatcherFilters {
  import opened Wrappers

  /** One hit as a nested matcher reports it: `findNext`'s position, then `getNumberOfErrors`,
    * `getBitScore` and `getBitScoreCost`. */
  datatype Report = Report(position: int, errors: int, score: real, scoreCost: real)

  /** The matcher being filtered, seen only through what its calls return: the reports of its
    * successive `findNext` calls, then -1 for ever. `scored` says whether it offers bit scores. */
  class NestedMatcher {
    const reports: seq<Report>
    const scored: bool
    /** How many reports `findNext` has returned. */
    var taken: nat

    constructor (reports: seq<Report>, scored: bool)
      ensures this.reports == reports && this.scored == scored && taken == 0
    {
      this.reports := reports;
      this.scored := scored;
      taken := 0;
    }

    method FindNext() returns (position: int)
      modifies this
      ensures old(taken) < |reports| ==> taken == old(taken) + 1 && position == reports[old(taken)].position
      ensures old(taken) >= |reports| ==> taken == old(taken) && position == -1
    {
      if taken < |reports| {
        position := reports[taken].position;
        taken := taken + 1;
      } else {
        position := -1;
      }
    }

    /** The last report's error count, score and score cost. */
    function Last(): Report
      reads this
      requires 0 < taken <= |reports|
    {
      reports[taken - 1]
    }
  }

  function Abs(x: int): nat {
    if x < 0 then -x else x
  }

  /** The position the window holds for report `i`: -1 before the first report, after the last
    * and for a report at -1, which the source cannot tell from exhaustion. */
  function PositionAt(reports: seq<Report>, i: int): int {
    if 0 <= i < |reports| && reports[i].position != -1 then reports[i].position else -1
  }

  /** The error count the window holds for report `i`, -1 where the position is -1. */
  function ErrorsAt(reports: seq<Report>, i: int): int {
    if 0 <= i < |reports| && reports[i].position != -1 then reports[i].errors else -1
  }

  /** The bit score the window holds for report `i`; `None` stands for `NaN`. */
  function ScoreAt(reports: seq<Report>, i: int): Option<real> {
    if 0 <= i < |reports| && reports[i].position != -1 then Some(reports[i].score) else None
  }

  /** The bit-score cost the window holds for report `i`; `None` stands for `NaN`. */
  function ScoreCostAt(reports: seq<Report>, i: int): Option<real> {
    if 0 <= i < |reports| && reports[i].position != -1 then Some(reports[i].scoreCost) else None
  }

  /** Report `a` lies next to report `b` and has exactly one error more. */
  predicate WorseNeighbour(reports: seq<Report>, a: int, b: int) {
    && PositionAt(reports, b) != -1
    && Abs(PositionAt(reports, a) - PositionAt(reports, b)) == 1
    && ErrorsAt(reports, a) == ErrorsAt(reports, b) + 1
  }

  /** Report `i` is an echo of a neighbouring report that is next to it with one error fewer. */
  predicate Echo(reports: seq<Report>, i: int) {
    WorseNeighbour(reports, i, i - 1) || WorseNeighbour(reports, i, i + 1)
  }

  /** Of two adjacent reports whose error counts differ by one, the worse one is an echo, on
    * whichever side it lies. */
  lemma EchoDropsWorse(reports: seq<Report>, i: int)
    requires 0 <= i && i + 1 < |reports|
    requires reports[i].position != -1 && reports[i + 1].position != -1
    requires Abs(reports[i].position - reports[i + 1].position) == 1
    ensures reports[i + 1].errors == reports[i].errors + 1 ==> Echo(reports, i + 1)
    ensures reports[i].errors == reports[i + 1].errors + 1 ==> Echo(reports, i)
  {
    assert PositionAt(reports, i) == reports[i].position && PositionAt(reports, i + 1) == reports[i + 1].position;
    assert ErrorsAt(reports, i) == reports[i].errors && ErrorsAt(reports, i + 1) == reports[i + 1].errors;
  }

  /** A report with no neighbour at distance one is never an echo. */
  lemma IsolatedKept(reports: seq<Report>, i: int)
    requires Abs(PositionAt(reports, i - 1) - PositionAt(reports, i)) != 1
    requires Abs(PositionAt(reports, i) - PositionAt(reports, i + 1)) != 1
    ensures !Echo(reports, i)
  {
    assert Abs(PositionAt(reports, i) - PositionAt(reports, i - 1)) != 1;
    assert Abs(PositionAt(reports, i) - PositionAt(reports, i + 1)) != 1;
  }

  /** Past the last report the window holds only -1 on both sides: nothing there is an echo. */
  lemma NoEchoPastEnd(reports: seq<Report>, i: int)
    requires i > |reports|
    ensures !Echo(reports, i) && PositionAt(reports, i) == -1
  {
  }

  class MatcherFilter {
    const nestedMatcher: NestedMatcher
    const positionsBuffer: array<int>
    const errorsBuffer: array<int>
    /** `null` when the nested matcher has no scores. */
    const bitScore: array?<Option<real>>
    const bitScoreCost: array?<Option<real>>
    /** The index of the nested report in the middle slot of the window. */
    ghost var shown: int

    /** The window holds reports `shown - 1`, `shown` and `shown + 1`, and the nested matcher has
      * returned every report up to the newest slot. */
    ghost predicate Valid()
      reads this, nestedMatcher, positionsBuffer, errorsBuffer, bitScore, bitScoreCost
    {
      var reports := nestedMatcher.reports;
      && positionsBuffer.Length == 3 && errorsBuffer.Length == 3 && positionsBuffer != errorsBuffer
      && (bitScore == null <==> !nestedMatcher.scored) && (bitScoreCost == null <==> bitScore == null)
      && (bitScore != null ==> bitScoreCost != null && bitScore != bitScoreCost
                               && bitScore.Length == 3 && bitScoreCost.Length == 3)
      && shown >= -2
      && nestedMatcher.taken == (if shown + 2 <= |reports| then shown + 2 else |reports|)
      && positionsBuffer[..] == [PositionAt(reports, shown - 1), PositionAt(reports, shown), PositionAt(reports, shown + 1)]
      && errorsBuffer[..] == [ErrorsAt(reports, shown - 1), ErrorsAt(reports, shown), ErrorsAt(reports, shown + 1)]
      && (bitScore != null ==>
            bitScore[..] == [ScoreAt(reports, shown - 1), ScoreAt(reports, shown), ScoreAt(reports, shown + 1)])
      && (bitScoreCost != null ==>
            bitScoreCost[..] == [ScoreCostAt(reports, shown - 1), ScoreCostAt(reports, shown), ScoreCostAt(reports, shown + 1)])
    }

    /** Java's constructor: every slot -1 (`NaN` for scores), then one `next()`, which pulls the
      * first nested report into the newest slot. */
    constructor (nestedMatcher: NestedMatcher)
      requires nestedMatcher.taken == 0
      modifies nestedMatcher
      ensures Valid() && shown == -1 && this.nestedMatcher == nestedMatcher
      ensures positionsBuffer[..] == [-1, -1, PositionAt(nestedMatcher.reports, 0)]
      ensures errorsBuffer[..] == [-1, -1, ErrorsAt(nestedMatcher.reports, 0)]
      ensures fresh(positionsBuffer) && fresh(errorsBuffer)
      ensures bitScore != null ==> fresh(bitScore) && fresh(bitScoreCost)
    {
      this.nestedMatcher := nestedMatcher;
      positionsBuffer := new int[3](_ => -1);
      errorsBuffer := new int[3](_ => -1);
      if nestedMatcher.scored {
        bitScore := new Option<real>[3](_ => None);
        bitScoreCost := new Option<real>[3](_ => None);
      } else {
        bitScore := null;
        bitScoreCost := null;
      }
      shown := -2;
      new;
      Next();
      assert positionsBuffer[..] == [positionsBuffer[0], positionsBuffer[1], positionsBuffer[2]];
      assert errorsBuffer[..] == [errorsBuffer[0], errorsBuffer[1], errorsBuffer[2]];
    }

    /** The first half of `next()`: every slot takes the value of the next newer one, the newest
      * keeping its own. */
    method Shift()
      requires positionsBuffer.Length == 3 && errorsBuffer.Length == 3 && positionsBuffer != errorsBuffer
      requires bitScore != null ==> bitScoreCost != null && bitScore != bitScoreCost
                                    && bitScore.Length == 3 && bitScoreCost.Length == 3
      modifies positionsBuffer, errorsBuffer, bitScore, bitScoreCost
      ensures positionsBuffer[..] == [old(positionsBuffer[1]), old(positionsBuffer[2]), old(positionsBuffer[2])]
      ensures errorsBuffer[..] == [old(errorsBuffer[1]), old(errorsBuffer[2]), old(errorsBuffer[2])]
      ensures bitScore != null ==> bitScore[..] == [old(bitScore[1]), old(bitScore[2]), old(bitScore[2])]
      ensures bitScore != null ==> bitScoreCost[..] == [old(bitScoreCost[1]), old(bitScoreCost[2]), old(bitScoreCost[2])]
    {
      for i := 0 to 2
        invariant forall k :: 0 <= k < i ==> positionsBuffer[k] == old(positionsBuffer[k + 1])
        invariant forall k :: i <= k < 3 ==> positionsBuffer[k] == old(positionsBuffer[k])
        invariant forall k :: 0 <= k < i ==> errorsBuffer[k] == old(errorsBuffer[k + 1])
        invariant forall k :: i <= k < 3 ==> errorsBuffer[k] == old(errorsBuffer[k])
        invariant bitScore != null ==> forall k :: 0 <= k < i ==> bitScore[k] == old(bitScore[k + 1])
        invariant bitScore != null ==> forall k :: i <= k < 3 ==> bitScore[k] == old(bitScore[k])
        invariant bitScore != null ==> forall k :: 0 <= k < i ==> bitScoreCost[k] == old(bitScoreCost[k + 1])
        invariant bitScore != null ==> forall k :: i <= k < 3 ==> bitScoreCost[k] == old(bitScoreCost[k])
      {
        positionsBuffer[i] := positionsBuffer[i + 1];
        errorsBuffer[i] := errorsBuffer[i + 1];
        if bitScore != null {
          bitScore[i] := bitScore[i + 1];
          bitScoreCost[i] := bitScoreCost[i + 1];
        }
      }
    }

    /** The second half of `next()`: the newest slot takes the fetched values. */
    method Store(position: int, errors: int, score: Option<real>, scoreCost: Option<real>)
      requires positionsBuffer.Length == 3 && errorsBuffer.Length == 3 && positionsBuffer != errorsBuffer
      requires bitScore != null ==> bitScoreCost != null && bitScore != bitScoreCost
                                    && bitScore.Length == 3 && bitScoreCost.Length == 3
      modifies positionsBuffer, errorsBuffer, bitScore, bitScoreCost
      ensures positionsBuffer[..] == old(positionsBuffer[..2]) + [position]
      ensures errorsBuffer[..] == old(errorsBuffer[..2]) + [errors]
      ensures bitScore != null ==> bitScore[..] == old(bitScore[..2]) + [score]
      ensures bitScore != null ==> bitScoreCost[..] == old(bitScoreCost[..2]) + [scoreCost]
    {
      positionsBuffer[2] := position;
      errorsBuffer[2] := errors;
      if bitScore != null {
        bitScore[2] := score;
        bitScoreCost[2] := scoreCost;
      }
    }

    /** Java's `next()`: shifts the window one report on, fetching the newest report from the
      * nested matcher, or -1 and `NaN` once it is exhausted. */
    method Next()
      requires Valid()
      modifies this`shown, nestedMatcher, positionsBuffer, errorsBuffer, bitScore, bitScoreCost
      ensures Valid() && shown == old(shown) + 1
    {
      ghost var reports := nestedMatcher.reports;
      Shift();
      var pos := nestedMatcher.FindNext();
      if pos == -1 {
        Store(-1, -1, None, None);
      } else {
        var last := nestedMatcher.Last();
        Store(pos, last.errors, Some(last.score), Some(last.scoreCost));
      }
      shown := shown + 1;
    }

    /** Java's `findNext()`: moves the window on until its middle report is not an echo and
      * returns that report's position. The reports skipped on the way are exactly echoes, and
      * once past the nested reports the result is -1 for ever. */
    method FindNext() returns (r: int)
      requires Valid()
      modifies this`shown, nestedMatcher, positionsBuffer, errorsBuffer, bitScore, bitScoreCost
      ensures Valid()
      ensures shown > old(shown) && !Echo(nestedMatcher.reports, shown)
      ensures forall j :: old(shown) < j < shown ==> Echo(nestedMatcher.reports, j)
      ensures r == PositionAt(nestedMatcher.reports, shown)
      ensures old(shown) >= |nestedMatcher.reports| ==> r == -1 && shown == old(shown) + 1
    {
      ghost var reports := nestedMatcher.reports;
      ghost var from := shown;
      while true
        invariant Valid() && from <= shown
        invariant shown == from || (shown <= |reports| && Echo(reports, shown))
        invariant forall j :: from < j <= shown ==> Echo(reports, j)
        decreases if shown <= |reports| then |reports| + 1 - shown else 0
      {
        Next();
        if positionsBuffer[0] != -1 && Abs(positionsBuffer[0] - positionsBuffer[1]) == 1
           && errorsBuffer[0] + 1 == errorsBuffer[1] {
          continue;
        }
        if positionsBuffer[2] != -1 && Abs(positionsBuffer[1] - positionsBuffer[2]) == 1
           && errorsBuffer[1] == errorsBuffer[2] + 1 {
          continue;
        }
        return positionsBuffer[1];
      }
    }

    /** Java's `getNumberOfErrors()`: the error count of the report in the middle slot. */
    function NumberOfErrors(): (r: int)
      reads this, nestedMatcher, positionsBuffer, errorsBuffer, bitScore, bitScoreCost
      requires Valid()
      ensures r == ErrorsAt(nestedMatcher.reports, shown)
      ensures r != -1 ==> r == nestedMatcher.reports[shown].errors
    {
      errorsBuffer[1]
    }

    /** Java's `getBitScore()`: the middle report's bit score, `None` for `NaN`; throws when the
      * nested matcher has no scores. */
    function BitScore(): (r: Outcome<Option<real>>)
      reads this, nestedMatcher, positionsBuffer, errorsBuffer, bitScore, bitScoreCost
      requires Valid()
      ensures r.Throws? <==> !nestedMatcher.scored
      ensures r.Throws? ==> r.exception == IllegalState
      ensures r.Ok? ==> r.value == ScoreAt(nestedMatcher.reports, shown)
    {
      if bitScore == null then Throws(IllegalState) else Ok(bitScore[1])
    }

    /** Java's `getBitScoreCost()`, guarded like `getBitScore()`. */
    function BitScoreCost(): (r: Outcome<Option<real>>)
      reads this, nestedMatcher, positionsBuffer, errorsBuffer, bitScore, bitScoreCost
      requires Valid()
      ensures r.Throws? <==> !nestedMatcher.scored
      ensures r.Throws? ==> r.exception == IllegalState
      ensures r.Ok? ==> r.value == ScoreCostAt(nestedMatcher.reports, shown)
    {
      if bitScore == null then Throws(IllegalState) else Ok(bitScoreCost[1])
    }
  }
}
