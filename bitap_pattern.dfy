/**
 * `BitapPattern`: the compiled motif with its optional exact-position mask, the factories that
 * wire state iterators into matchers, exact search, and the bit score of a hit.
 */
module BitapPatterns {
  import opened Wrappers
  import opened Bits
  import opened Alphabets
  import opened Motifs
  import opened BitapDatas
  import opened Automata
  import opened StateIterators
  import opened Matchers
  import opened MotifsWithExactMask
  import opened Oracles

  datatype BitapPattern = BitapPattern(
    motif: Motif,
    mainData: BitapData,
    /** Present exactly when an exact mask was given. */
    secondaryData: Option<BitapData>,
    exactMask: Option<seq<bool>>,
    matchScore: seq<real>,
    mismatchScore: seq<real>,
    averageMismatchPenalty: Option<real>)
  {
    /** The main data is the motif's compiled masks; the secondary data is the main data narrowed
      * to the exact positions; there is one score per position. */
    predicate Valid() {
      && motif.Valid() && motif.size < 64
      && mainData.Valid() && mainData.size == motif.size
      && CompiledFrom(motif, mainData.patternMask)
      && |mainData.reversePatternMask| == motif.alphabet.size
      && (forall c :: 0 <= c < motif.alphabet.size ==> mainData.reversePatternMask[c] == ReverseMask(motif, c))
      && (secondaryData.Some? <==> exactMask.Some?)
      && (exactMask.Some? ==> |exactMask.value| == motif.size && secondaryData.value == Secondary(mainData, exactMask.value))
      && |matchScore| == motif.size && |mismatchScore| == motif.size
    }
  }

  /** The mask the scores are computed with: the given one, or no exact position. */
  function ScoringMask(motif: Motif, exactMask: Option<seq<bool>>): seq<bool> {
    if exactMask.Some? then exactMask.value else seq(motif.size, _ => false)
  }

  /** The `MotifWithExactMask` the constructor builds to take its scores from. */
  function Scores(p: BitapPattern): MotifWithExactMask {
    MotifWithExactMask(p.motif, Some(ScoringMask(p.motif, p.exactMask)), p.matchScore, p.mismatchScore,
                       p.averageMismatchPenalty)
  }

  /** The scores are those of the motif and its mask under the logarithm `log`. */
  ghost predicate Scored(p: BitapPattern, log: int -> real) {
    ScoredBy(Scores(p), log)
  }

  /** Java's constructor `BitapPattern(motif, mainData, exactMask)`: narrows the main data to the
    * exact positions when a mask is given, and takes the scores of the motif with that mask (with
    * no exact position when none is given). */
  method New(motif: Motif, mainData: BitapData, exactMask: Option<seq<bool>>, log: int -> real)
    returns (r: Outcome<BitapPattern>)
    requires motif.Valid() && motif.size < 64 && mainData.Valid() && mainData.size == motif.size
    requires CompiledFrom(motif, mainData.patternMask) && |mainData.reversePatternMask| == motif.alphabet.size
    requires forall c :: 0 <= c < motif.alphabet.size ==> mainData.reversePatternMask[c] == ReverseMask(motif, c)
    ensures exactMask.Some? && |exactMask.value| != motif.size ==> r == Throws(IllegalArgument)
    ensures r.Throws? <==> (exactMask.Some? && |exactMask.value| != motif.size) || !BasicAtEveryPosition(motif)
    ensures r.Throws? ==> r.exception == IllegalArgument || r.exception == IndexOutOfBounds
    ensures r.Ok? ==> && r.value.Valid() && Scored(r.value, log)
                      && r.value.motif == motif && r.value.mainData == mainData && r.value.exactMask == exactMask
  {
    var secondaryData: Option<BitapData> := None;
    if exactMask.Some? {
      var narrowed := ToSecondary(mainData, exactMask.value);
      if narrowed.Throws? {
        return Throws(narrowed.exception);
      }
      secondaryData := Some(narrowed.value);
    }
    var me := MotifsWithExactMask.New(motif, Some(ScoringMask(motif, exactMask)), log);
    if me.Throws? {
      return Throws(me.exception);
    }
    return Ok(BitapPattern(motif, mainData, secondaryData, exactMask,
                           me.value.defaultMatchScore, me.value.mismatchScore, me.value.averageMismatchPenalty));
  }

  /** Java's `Motif.toBitapPattern(exactMask)`: `null` (here `None`) for a motif of 64 positions
    * or more, otherwise the pattern over the motif's compiled masks. */
  method ToBitapPattern(motif: Motif, exactMask: Option<seq<bool>>, log: int -> real)
    returns (r: Outcome<Option<BitapPattern>>)
    requires motif.Valid()
    ensures motif.size >= 64 ==> r == Ok(None)
    ensures motif.size < 64 && exactMask.Some? && |exactMask.value| != motif.size ==> r == Throws(IllegalArgument)
    ensures motif.size < 64 ==>
              (r.Throws? <==> (exactMask.Some? && |exactMask.value| != motif.size) || !BasicAtEveryPosition(motif))
    ensures r.Throws? ==> r.exception == IllegalArgument || r.exception == IndexOutOfBounds
    ensures r.Ok? && motif.size < 64 ==> && r.value.Some? && r.value.value.Valid() && Scored(r.value.value, log)
                                          && r.value.value.motif == motif && r.value.value.exactMask == exactMask
  {
    if motif.size >= 64 {
      return Ok(None);
    }
    var patternMask, reversePatternMask := BuildMasks(motif);
    var mainData := BitapDatas.New(motif.size, patternMask, reversePatternMask);
    assert mainData.Ok?;
    var pattern := New(motif, mainData.value, exactMask, log);
    if pattern.Throws? {
      return Throws(pattern.exception);
    }
    return Ok(Some(pattern.value));
  }

  /** Java's `Motif.getBitapPattern()`: the pattern without exact mask that the motif's
    * constructor built, or a `RuntimeException` for a motif of 64 positions or more. */
  method GetBitapPattern(motif: Motif, log: int -> real) returns (r: Outcome<BitapPattern>)
    requires motif.Valid() && BasicAtEveryPosition(motif)
    ensures r.Throws? <==> motif.size >= 64
    ensures r.Throws? ==> r.exception == Runtime
    ensures r.Ok? ==> && r.value.Valid() && Scored(r.value, log) && r.value.motif == motif
                      && r.value.exactMask.None? && r.value.secondaryData.None?
  {
    if motif.size >= 64 {
      return Throws(Runtime);
    }
    var pattern := ToBitapPattern(motif, None, log);
    return Ok(pattern.value.value);
  }

  /** Two score tables built from the same motif, mask and logarithm are the same. */
  lemma ScoresDetermined(a: MotifWithExactMask, b: MotifWithExactMask, log: int -> real)
    requires ScoredBy(a, log) && ScoredBy(b, log) && a.motif == b.motif
    requires MismatchPenalty(a.motif, a.exactMask, log) == MismatchPenalty(b.motif, b.exactMask, log)
    ensures a.defaultMatchScore == b.defaultMatchScore && a.mismatchScore == b.mismatchScore
    ensures a.averageMismatchPenalty == b.averageMismatchPenalty
  {
    assert forall i :: 0 <= i < a.motif.size ==> a.defaultMatchScore[i] == b.defaultMatchScore[i];
    assert forall i :: 0 <= i < a.motif.size ==> a.mismatchScore[i] == b.mismatchScore[i];
  }

  /** Java's `MotifWithExactMask.toBitapPattern()`: the motif's pattern with this mask, which
    * carries the same scores as the `MotifWithExactMask` itself. */
  method FromMotifWithExactMask(me: MotifWithExactMask, log: int -> real) returns (r: Outcome<Option<BitapPattern>>)
    requires ScoredBy(me, log)
    ensures me.motif.size >= 64 ==> r == Ok(None)
    ensures me.motif.size < 64 ==> (r.Throws? <==> me.exactMask.Some? && |me.exactMask.value| != me.motif.size)
    ensures r.Throws? ==> r.exception == IllegalArgument
    ensures r.Ok? && me.motif.size < 64 ==>
              && r.value.Some? && r.value.value.Valid() && r.value.value.motif == me.motif
              && r.value.value.exactMask == me.exactMask
              && r.value.value.matchScore == me.defaultMatchScore && r.value.value.mismatchScore == me.mismatchScore
              && r.value.value.averageMismatchPenalty == me.averageMismatchPenalty
  {
    r := ToBitapPattern(me.motif, me.exactMask, log);
    if r.Ok? && me.motif.size < 64 {
      var p := r.value.value;
      assert Count(ScoringMask(me.motif, None)) == 0 by {
        NoneSet(me.motif.size);
      }
      ScoresDetermined(Scores(p), me, log);
    }
  }

  /** A mask with no position set counts none. */
  lemma {:induction false} NoneSet(n: nat)
    ensures Count(seq(n, _ => false)) == 0
  {
    if n > 0 {
      NoneSet(n - 1);
      assert seq(n, _ => false)[..n - 1] == seq(n - 1, _ => false);
    }
  }

  /** The contribution of code `code` at motif position `j` to a hit's bit score: the match score
    * for an admitted basic letter, minus the cost of the wider of the two sets for an admitted
    * wildcard, the mismatch score for a code the motif does not admit there. */
  function PositionScore(p: BitapPattern, j: int, code: int): real
    requires p.Valid() && 0 <= j < p.motif.size && p.motif.alphabet.IsCode(code)
  {
    var a := p.motif.alphabet;
    if p.motif.Allows(code, j) then
      if code < a.basicSize then p.matchScore[j]
      else
        AllowedBasicBound(p.motif, j);
        -a.cost[Widest(p.motif, j, code) - 1]
    else p.mismatchScore[j]
  }

  /** Java's `Math.max(wildcard breadth, allowedBasicCodes(j))`. */
  function Widest(m: Motif, j: int, code: int): (r: int)
    requires m.Valid() && 0 <= j < m.size && m.alphabet.IsCode(code)
    ensures 1 <= r <= m.alphabet.basicSize
  {
    AllowedBasicBound(m, j);
    var breadth := m.alphabet.wildcards[code].basicSize;
    var allowed := |AllowedBasic(m, j)|;
    if breadth >= allowed then breadth else allowed
  }

  /** The bit score of window `w` laid over the first `|w|` motif positions. */
  function WindowScore(p: BitapPattern, w: seq<int>): real
    requires p.Valid() && |w| <= p.motif.size && p.motif.alphabet.AreCodes(w)
  {
    if |w| == 0 then 0.0 else WindowScore(p, w[..|w| - 1]) + PositionScore(p, |w| - 1, w[|w| - 1])
  }

  /** The best score a motif can reach: every position matched by a basic letter, worth the cost
    * entry of its number of admitted basic letters. Java's `calculateMaxBitScore` computes the
    * same sum from the logarithm table the cost table is derived from. */
  function MaxBitScore(m: Motif, n: nat): real
    requires m.Valid() && BasicAtEveryPosition(m) && n <= m.size
  {
    if n == 0 then 0.0 else MaxBitScore(m, n - 1) + DefaultScore(m, n - 1)
  }

  /** Per position, the contributions agree with the `MotifWithExactMask` the pattern was scored
    * with: an admitted basic letter earns its match bit score, an admitted wildcard the negated
    * match bit score, and a code the motif does not admit at a fuzzy position its mismatch bit
    * score. */
  lemma PositionScoreByCase(p: BitapPattern, j: int, code: int)
    requires p.Valid() && 0 <= j < p.motif.size && p.motif.alphabet.IsCode(code)
    ensures p.motif.Allows(code, j) && code < p.motif.alphabet.basicSize ==>
              PositionScore(p, j, code) == MatchBitScore(Scores(p), j, code)
    ensures p.motif.Allows(code, j) && code >= p.motif.alphabet.basicSize ==>
              PositionScore(p, j, code) == -MatchBitScore(Scores(p), j, code)
    ensures !p.motif.Allows(code, j) && !ScoringMask(p.motif, p.exactMask)[j] ==>
              MismatchBitScore(Scores(p), j) == Ok(Finite(PositionScore(p, j, code)))
  {
  }

  /** A window of basic letters the motif admits scores the maximal bit score. */
  lemma {:induction false} ScoreCeiling(p: BitapPattern, log: int -> real, w: seq<int>)
    requires p.Valid() && Scored(p, log) && |w| <= p.motif.size && p.motif.alphabet.AreCodes(w)
    requires p.motif.Fits(w) && forall i :: 0 <= i < |w| ==> w[i] < p.motif.alphabet.basicSize
    ensures WindowScore(p, w) == MaxBitScore(p.motif, |w|)
  {
    if |w| > 0 {
      ScoreCeiling(p, log, w[..|w| - 1]);
    }
  }

  /** With non-negative costs and a non-negative length penalty, no window scores above the
    * maximal bit score, so the cost of a hit is never negative. */
  lemma {:induction false} ScoreBelowCeiling(p: BitapPattern, log: int -> real, w: seq<int>)
    requires p.Valid() && Scored(p, log) && |w| <= p.motif.size && p.motif.alphabet.AreCodes(w)
    requires forall i :: 0 <= i < p.motif.alphabet.basicSize ==> p.motif.alphabet.cost[i] >= 0.0
    requires log(LengthPenaltyArgument(p.motif.size, Some(ScoringMask(p.motif, p.exactMask)))) >= 0.0
    ensures WindowScore(p, w) <= MaxBitScore(p.motif, |w|)
  {
    if |w| > 0 {
      ScoreBelowCeiling(p, log, w[..|w| - 1]);
      var j, code := |w| - 1, w[|w| - 1];
      AllowedBasicBound(p.motif, j);
      assert PositionScore(p, j, code) <= DefaultScore(p.motif, j);
    }
  }

  /** Java's `BitapMatcherWithoutIndels`: a matcher over the pattern's exact or substitution
    * cursors that can also score its hits against `sequence`. */
  class MatcherWithoutIndels {
    const pattern: BitapPattern
    const sequence: Sequence
    const matcher: Matcher

    /** The matcher scans `sequence` with the pattern's main data, without indels. */
    ghost predicate Valid()
      reads this, matcher, matcher.Footprint()
    {
      && pattern.Valid() && sequence.Valid() && matcher.Valid()
      && sequence.alphabet.size == pattern.motif.alphabet.size
      && matcher.mainState.data == pattern.mainData
      && matcher.mainState.sequence == sequence.codes
      && !matcher.mainState.kind.Indel()
    }

    constructor (pattern: BitapPattern, sequence: Sequence, matcher: Matcher)
      ensures this.pattern == pattern && this.sequence == sequence && this.matcher == matcher
    {
      this.pattern := pattern;
      this.sequence := sequence;
      this.matcher := matcher;
    }

    /** The motif position of the hit window. */
    function HitStart(): int
      reads this, matcher, matcher.mainState
    {
      matcher.mainState.CurrentPosition()
    }

    /** Java's `getBitScore()`: only after a hit; the sum of the contributions of the window of
      * `size` codes starting at the hit position. Reading a code outside the sequence throws. */
    method BitScore() returns (r: Outcome<real>)
      requires Valid()
      ensures !matcher.mainState.matched ==> r == Throws(IllegalState)
      ensures matcher.mainState.matched ==>
                (r.Throws? <==> pattern.motif.size > 0 && !(0 <= HitStart() && HitStart() + pattern.motif.size <= |sequence.codes|))
      ensures matcher.mainState.matched && r.Throws? ==> r.exception == IndexOutOfBounds
      ensures r.Ok? ==> && matcher.mainState.matched
                        && (pattern.motif.size == 0 ==> r.value == 0.0)
                        && (pattern.motif.size > 0 ==>
                              && 0 <= HitStart() && HitStart() + pattern.motif.size <= |sequence.codes|
                              && r.value == WindowScore(pattern, sequence.codes[HitStart()..HitStart() + pattern.motif.size]))
    {
      if !matcher.mainState.matched {
        return Throws(IllegalState);
      }
      r := ScoreWindow(pattern, sequence.codes, matcher.mainState.CurrentPosition());
    }

    /** Java's `getBitScoreCost()`: the motif's maximal bit score, here passed in as
      * `matchBitScore`, minus the hit's bit score. */
    method BitScoreCost(matchBitScore: real) returns (r: Outcome<real>)
      requires Valid()
      ensures !matcher.mainState.matched ==> r == Throws(IllegalState)
      ensures r.Throws? ==> r.exception == IllegalState || r.exception == IndexOutOfBounds
      ensures r.Ok? && pattern.motif.size > 0 ==>
                && 0 <= HitStart() && HitStart() + pattern.motif.size <= |sequence.codes|
                && r.value == matchBitScore - WindowScore(pattern, sequence.codes[HitStart()..HitStart() + pattern.motif.size])
    {
      var score := BitScore();
      if score.Throws? {
        return Throws(score.exception);
      }
      return Ok(matchBitScore - score.value);
    }
  }

  /** The loop of `getBitScore`: sums the contributions of the `size` codes from `start`,
    * throwing at the first code outside the sequence. */
  method ScoreWindow(pattern: BitapPattern, codes: seq<int>, start: int) returns (r: Outcome<real>)
    requires pattern.Valid() && pattern.motif.alphabet.AreCodes(codes)
    ensures r.Throws? <==> pattern.motif.size > 0 && !(0 <= start && start + pattern.motif.size <= |codes|)
    ensures r.Throws? ==> r.exception == IndexOutOfBounds
    ensures r.Ok? && pattern.motif.size == 0 ==> r.value == 0.0
    ensures r.Ok? && pattern.motif.size > 0 ==> r.value == WindowScore(pattern, codes[start..start + pattern.motif.size])
  {
    var score := 0.0;
    var i := start;
    for j := 0 to pattern.mainData.size
      invariant i == start + j
      invariant 0 < j ==> 0 <= start && start + j <= |codes| && score == WindowScore(pattern, codes[start..start + j])
      invariant j == 0 ==> score == 0.0
    {
      if !(0 <= i < |codes|) {
        return Throws(IndexOutOfBounds);
      }
      var delta := Contribution(pattern, j, codes[i]);
      assert codes[start..start + j + 1][..j] == codes[start..start + j];
      score := score + delta;
      i := i + 1;
    }
    return Ok(score);
  }

  /** The body of `getBitScore`'s loop for motif position `j` and target code `code`. */
  method Contribution(pattern: BitapPattern, j: int, code: int) returns (delta: real)
    requires pattern.Valid() && 0 <= j < pattern.motif.size && pattern.motif.alphabet.IsCode(code)
    ensures delta == PositionScore(pattern, j, code)
  {
    var m := pattern.motif;
    if Cell(m.data, m.alphabet.size, m.size, code, j) {
      if code < m.alphabet.basicSize {
        delta := pattern.matchScore[j];
      } else {
        var allowed := AllowedBasicCodes(m, j);
        var breadth := m.alphabet.wildcards[code].basicSize;
        var widestWildcard := if breadth >= allowed then breadth else allowed;
        delta := -m.alphabet.cost[widestWildcard - 1];
      }
    } else {
      delta := pattern.mismatchScore[j];
    }
  }

  /** A freshly built cursor of `kind` over `data`, with `count` registers, about to read
    * `sequence` from `from`, bounded by `to` (in the cursor's own sense of its range). */
  ghost predicate Cursor(it: StateIterator, kind: Kind, data: BitapData, sequence: Sequence, count: int, from: int, to: int)
    reads it
  {
    && it.kind == kind && it.data == data && it.sequence == sequence.codes && it.R.Length == count
    && it.current == from && it.start == from && it.to == to && it.consumed == []
  }

  /** Java's `exactMatcher(sequence, from, to)`: an exact cursor over the main data, with no
    * secondary cursor. The cursor's constructor rejects a sequence whose alphabet size differs
    * from the pattern's. */
  method ExactMatcher(p: BitapPattern, sequence: Sequence, from: int, to: int) returns (r: Outcome<MatcherWithoutIndels>)
    requires p.Valid() && sequence.Valid()
    ensures r.Throws? <==> sequence.alphabet.size != p.motif.alphabet.size
    ensures r.Throws? ==> r.exception == IllegalArgument
    ensures r.Ok? ==> && fresh(r.value) && fresh(r.value.matcher) && fresh(r.value.matcher.Footprint())
                      && r.value.Valid() && r.value.pattern == p && r.value.sequence == sequence
                      && !r.value.matcher.Hit() && r.value.matcher.secondaryState == null
                      && Cursor(r.value.matcher.mainState, ExactMatch, p.mainData, sequence, 1, from, to)
  {
    var main := Create(ExactMatch, p.mainData, sequence, 1, from, to);
    if main.Throws? {
      return Throws(main.exception);
    }
    var matcher := new Matcher(main.value, null);
    var scoring := new MatcherWithoutIndels(p, sequence, matcher);
    return Ok(scoring);
  }

  /** Java's `substitutionOnlyMatcherFirst(maxSubstitutions, sequence, from, to)`: a
    * substitution cursor with `maxSubstitutions + 1` registers over the main data, paired with an
    * exact cursor over the secondary data on the same range when the pattern has an exact mask.
    * A budget below -1 makes the register array's allocation throw; a budget of -1 gives a cursor
    * without registers, whose first step inside the range throws (`Matcher.FindNext`). */
  method SubstitutionOnlyMatcherFirst(p: BitapPattern, maxSubstitutions: int, sequence: Sequence, from: int, to: int)
    returns (r: Outcome<MatcherWithoutIndels>)
    requires p.Valid() && sequence.Valid()
    ensures r.Throws? <==> sequence.alphabet.size != p.motif.alphabet.size || maxSubstitutions < -1
    ensures r.Throws? ==> r.exception == (if sequence.alphabet.size != p.motif.alphabet.size then IllegalArgument
                                          else NegativeArraySize)
    ensures r.Ok? ==> && fresh(r.value) && fresh(r.value.matcher) && fresh(r.value.matcher.Footprint())
                      && r.value.Valid() && r.value.pattern == p && r.value.sequence == sequence
                      && !r.value.matcher.Hit()
                      && Cursor(r.value.matcher.mainState, SubstitutionOnlyFirst, p.mainData, sequence,
                                maxSubstitutions + 1, from, to)
                      && (r.value.matcher.secondaryState == null <==> p.secondaryData.None?)
                      && (p.secondaryData.Some? ==>
                            Cursor(r.value.matcher.secondaryState, ExactMatch, p.secondaryData.value, sequence, 1, from, to))
  {
    var main := Create(SubstitutionOnlyFirst, p.mainData, sequence, maxSubstitutions + 1, from, to);
    if main.Throws? {
      return Throws(main.exception);
    }
    var secondary: StateIterator? := null;
    if p.secondaryData.Some? {
      var exact := Create(ExactMatch, p.secondaryData.value, sequence, 1, from, to);
      assert exact.Ok?;
      secondary := exact.value;
    }
    var matcher := new Matcher(main.value, secondary);
    var scoring := new MatcherWithoutIndels(p, sequence, matcher);
    return Ok(scoring);
  }

  /** Java's `substitutionAndIndelMatcherLast(maxNumberOfErrors, sequence, from, to)`: not
    * implemented for a pattern with an exact mask; otherwise a forward indel cursor with
    * `maxNumberOfErrors + 1` registers and no secondary cursor, or the allocation's exception when
    * that count is negative. */
  method SubstitutionAndIndelMatcherLast(p: BitapPattern, maxNumberOfErrors: int, sequence: Sequence, from: int, to: int)
    returns (r: Outcome<Matcher>)
    requires p.Valid() && sequence.Valid()
    ensures p.secondaryData.Some? ==> r == Throws(IllegalState)
    ensures p.secondaryData.None? ==>
              (r.Throws? <==> sequence.alphabet.size != p.motif.alphabet.size || maxNumberOfErrors < -1)
    ensures p.secondaryData.None? && r.Throws? ==>
              r.exception == (if sequence.alphabet.size != p.motif.alphabet.size then IllegalArgument
                              else NegativeArraySize)
    ensures r.Ok? ==> && fresh(r.value) && fresh(r.value.Footprint()) && r.value.Valid() && !r.value.Hit()
                      && r.value.secondaryState == null
                      && Cursor(r.value.mainState, SubstitutionAndIndelLast, p.mainData, sequence,
                                maxNumberOfErrors + 1, from, to)
  {
    if p.secondaryData.Some? {
      return Throws(IllegalState);
    }
    var main := Create(SubstitutionAndIndelLast, p.mainData, sequence, maxNumberOfErrors + 1, from, to);
    if main.Throws? {
      return Throws(main.exception);
    }
    var matcher := new Matcher(main.value, null);
    return Ok(matcher);
  }

  /** Java's `substitutionAndIndelMatcherFirst(maxNumberOfErrors, sequence, from, to)`: not
    * implemented for a pattern with an exact mask; otherwise a backward indel cursor that starts
    * at `to - 1` and stops below `from`, or the allocation's exception when
    * `maxNumberOfErrors + 1` is negative. */
  method SubstitutionAndIndelMatcherFirst(p: BitapPattern, maxNumberOfErrors: int, sequence: Sequence, from: int, to: int)
    returns (r: Outcome<Matcher>)
    requires p.Valid() && sequence.Valid()
    ensures p.secondaryData.Some? ==> r == Throws(IllegalState)
    ensures p.secondaryData.None? ==>
              (r.Throws? <==> sequence.alphabet.size != p.motif.alphabet.size || maxNumberOfErrors < -1)
    ensures p.secondaryData.None? && r.Throws? ==>
              r.exception == (if sequence.alphabet.size != p.motif.alphabet.size then IllegalArgument
                              else NegativeArraySize)
    ensures r.Ok? ==> && fresh(r.value) && fresh(r.value.Footprint()) && r.value.Valid() && !r.value.Hit()
                      && r.value.secondaryState == null
                      && Cursor(r.value.mainState, SubstitutionAndIndelFirst, p.mainData, sequence,
                                maxNumberOfErrors + 1, to - 1, from)
  {
    if p.secondaryData.Some? {
      return Throws(IllegalState);
    }
    var main := Create(SubstitutionAndIndelFirst, p.mainData, sequence, maxNumberOfErrors + 1, to - 1, from);
    if main.Throws? {
      return Throws(main.exception);
    }
    var matcher := new Matcher(main.value, null);
    return Ok(matcher);
  }

  /** The motif fits the window of `sq` that starts at `q`: Java's `Motif.matches(sq, q)`. */
  predicate OccursAt(m: Motif, sq: seq<int>, q: int)
    requires m.Valid() && m.alphabet.AreCodes(sq)
  {
    0 <= q && q + m.size <= |sq| && m.Fits(sq[q..q + m.size])
  }

  /** The first window inside `[lo, hi)` the motif fits, or -1: a naive scan. */
  function FirstOccurrence(m: Motif, sq: seq<int>, lo: int, hi: int): int
    requires m.Valid() && m.alphabet.AreCodes(sq) && 0 <= lo && hi <= |sq|
    decreases hi - lo
  {
    if lo + m.size > hi then -1
    else if OccursAt(m, sq, lo) then lo
    else FirstOccurrence(m, sq, lo + 1, hi)
  }

  /** The naive scan returns -1 exactly when no window of `[lo, hi)` fits, and otherwise a
    * fitting window with none before it. */
  lemma {:induction false} FirstOccurrenceIsFirst(m: Motif, sq: seq<int>, lo: int, hi: int)
    requires m.Valid() && m.alphabet.AreCodes(sq) && 0 <= lo && hi <= |sq|
    ensures FirstOccurrence(m, sq, lo, hi) == -1 <==>
              forall q :: lo <= q && q + m.size <= hi ==> !OccursAt(m, sq, q)
    ensures FirstOccurrence(m, sq, lo, hi) != -1 ==>
              var k := FirstOccurrence(m, sq, lo, hi);
              lo <= k && k + m.size <= hi && OccursAt(m, sq, k) && forall q :: lo <= q < k ==> !OccursAt(m, sq, q)
    decreases hi - lo
  {
    if lo + m.size <= hi && !OccursAt(m, sq, lo) {
      FirstOccurrenceIsFirst(m, sq, lo + 1, hi);
    }
  }

  /** Whatever meets the characterisation of `FirstOccurrenceIsFirst` is the naive scan's answer. */
  lemma FirstOccurrenceUnique(m: Motif, sq: seq<int>, lo: int, hi: int, k: int)
    requires m.Valid() && m.alphabet.AreCodes(sq) && 0 <= lo && hi <= |sq|
    requires k == -1 ==> forall q :: lo <= q && q + m.size <= hi ==> !OccursAt(m, sq, q)
    requires k != -1 ==> && lo <= k && k + m.size <= hi && OccursAt(m, sq, k)
                         && forall q :: lo <= q < k ==> !OccursAt(m, sq, q)
    ensures k == FirstOccurrence(m, sq, lo, hi)
  {
    FirstOccurrenceIsFirst(m, sq, lo, hi);
    if k != -1 {
      var f := FirstOccurrence(m, sq, lo, hi);
      assert OccursAt(m, sq, k);
      assert OccursAt(m, sq, f);
    }
  }

  /** The prefixes of a scan from `from` over a motif's masks: the exact automaton accepts the
    * first `k` codes exactly when the motif fits the window ending at `from + k`. */
  lemma ScanWindows(m: Motif, masks: seq<Long>, sq: seq<int>, from: int, c: seq<int>, k: int)
    requires m.Valid() && 1 <= m.size < 64 && CompiledFrom(m, masks) && m.alphabet.AreCodes(sq)
    requires 0 <= from && from + |c| <= |sq| && c == sq[from..from + |c|] && 0 <= k <= |c|
    ensures AreCodes(masks, c[..k])
    ensures Cost(masks, c[..k], m.size) == 0 <==> k >= m.size && OccursAt(m, sq, from + k - m.size)
  {
    var prefix := c[..k];
    assert prefix == sq[from..from + k];
    ExactOracle(m, masks, prefix);
    if k >= m.size {
      assert prefix[k - m.size..] == sq[from + k - m.size..from + k];
    }
  }

  /** What an exact scan of `[from, to)` that stops after consuming `c` has found, expressed
    * through the naive scan: a hit at the end of `c` that no earlier prefix of `c` had, or no
    * hit anywhere in the range. */
  lemma {:induction false} ExactScanFindsFirst(m: Motif, masks: seq<Long>, sq: seq<int>, from: int, to: int,
                                               c: seq<int>, hit: bool, value: int)
    requires m.Valid() && 1 <= m.size < 64 && CompiledFrom(m, masks) && m.alphabet.AreCodes(sq)
    requires 0 <= from && from + |c| <= to <= |sq| && c == sq[from..from + |c|]
    requires AreCodes(masks, c)
    requires forall k :: 0 < k < |c| ==> Cost(masks, c[..k], m.size) != 0
    requires hit ==> Cost(masks, c, m.size) == 0 && value == from + |c| - m.size
    requires !hit ==> value == -1 && from + |c| == to && (c == [] || Cost(masks, c, m.size) != 0)
    ensures value == FirstOccurrence(m, sq, from, to)
  {
    assert c[..|c|] == c;
    forall q | from <= q && q + m.size <= from + |c|
      ensures (q + m.size < from + |c| || !hit) ==> !OccursAt(m, sq, q)
      ensures q + m.size == from + |c| ==> (OccursAt(m, sq, q) <==> Cost(masks, c, m.size) == 0)
    {
      ScanWindows(m, masks, sq, from, c, q + m.size - from);
    }
    if hit {
      ScanWindows(m, masks, sq, from, c, |c|);
    }
    FirstOccurrenceUnique(m, sq, from, to, value);
  }

  /** The exact cursor's acceptance, over a non-empty motif, is the substitution count of the
    * whole motif being zero. */
  lemma ExactAccepts(mt: Matcher, p: BitapPattern, s: seq<int>)
    requires p.Valid() && 1 <= p.motif.size && mt.Valid() && mt.secondaryState == null
    requires mt.mainState.kind == ExactMatch && mt.mainState.data == p.mainData
    requires AreCodes(p.mainData.patternMask, s)
    ensures mt.Accepts(s) <==> Cost(p.mainData.patternMask, s, p.motif.size) == 0
  {
  }

  /** A hit of the substitution-only cursor over a non-empty motif: the window of `size` codes at
    * `currentPosition()` lies inside the sequence, holds exactly `errors` positions the motif does
    * not admit, and `errors` is within the budget of `maxSubstitutions + 1` registers. */
  lemma SubstitutionHitWindow(mt: Matcher, p: BitapPattern)
    requires p.Valid() && 1 <= p.motif.size && mt.Valid()
    requires mt.mainState.kind == SubstitutionOnlyFirst && mt.mainState.data == p.mainData
    requires mt.mainState.matched
    ensures var it := mt.mainState;
            var q := it.CurrentPosition();
            && 0 <= q && q + p.motif.size <= |it.sequence| && p.motif.alphabet.AreCodes(it.sequence[q..q + p.motif.size])
            && it.errors == p.motif.Mismatches(it.sequence[q..q + p.motif.size])
            && it.errors < it.R.Length
  {
    var it := mt.mainState;
    assert it.Valid() && !it.failed && it.HitAfter(it.consumed) && it.errors == it.Distance(it.consumed);
    CursorHitWindow(it, p);
  }

  /** `SubstitutionHitWindow` for one cursor whose raised `match` flag the automaton stands
    * behind. */
  lemma CursorHitWindow(it: StateIterator, p: BitapPattern)
    requires p.Valid() && 1 <= p.motif.size
    requires it.Valid() && !it.failed && it.kind == SubstitutionOnlyFirst && it.data == p.mainData
    requires it.HitAfter(it.consumed) && it.errors == it.Distance(it.consumed)
    ensures var q := it.CurrentPosition();
            && 0 <= q && q + p.motif.size <= |it.sequence| && p.motif.alphabet.AreCodes(it.sequence[q..q + p.motif.size])
            && it.errors == p.motif.Mismatches(it.sequence[q..q + p.motif.size])
            && it.errors < it.R.Length
  {
    var c := it.consumed;
    var m := p.motif;
    var masks := p.mainData.patternMask;
    assert m.alphabet.AreCodes(c);
    assert it.Distance(c) == Cost(masks, c, m.size);
    if |c| < m.size {
      CostOfShortInput(masks, c, m.size);
    }
    SubstitutionOracle(m, masks, c);
    TrackWindow(it, m.size);
  }

  /** The last `n` codes a forward cursor consumed are the `n` codes before `current`. */
  lemma TrackWindow(it: StateIterator, n: int)
    requires it.Static() && it.Track() && it.Dir() == 1 && 1 <= n <= |it.consumed|
    ensures 0 <= it.current - n && it.current <= |it.sequence|
    ensures it.consumed[|it.consumed| - n..] == it.sequence[it.current - n..it.current]
  {
    var c := it.consumed;
    assert it.TrackOf(it.current, c, it.symbolsProcessed);
    forall k | |c| - n <= k < |c|
      ensures 0 <= it.start + k < |it.sequence| && c[k] == it.sequence[it.start + k]
    {
      assert 0 <= it.start + it.Dir() * k < |it.sequence| && c[k] == it.sequence[it.start + it.Dir() * k];
    }
    var first, last := c[|c| - n], c[|c| - 1];
    assert 0 <= it.start + (|c| - n) && it.start + (|c| - 1) < |it.sequence|;
  }

  /** Over an empty motif the exact cursor tests bit 63 (`1L << -1`), which every compiled mask
    * sets, so it accepts nothing. */
  lemma EmptyMotifRejects(mt: Matcher, p: BitapPattern, s: seq<int>)
    requires p.Valid() && p.motif.size == 0 && mt.Valid() && mt.secondaryState == null
    requires mt.mainState.kind == ExactMatch && mt.mainState.data == p.mainData
    requires AreCodes(p.mainData.patternMask, s)
    ensures !mt.Accepts(s)
  {
    var masks := p.mainData.patternMask;
    assert mt.mainState.HitBit() == 63;
    if |s| > 0 {
      var code := s[|s| - 1];
      assert masks[code] == ForwardMask(p.motif, code);
      assert Miss(masks, code, 63) == 1;
    }
  }

  /** Java's `exactSearch(sequence, from, to)`: `exactMatcher(sequence, from, to).findNext()`.
    * Over a range inside the sequence it does not throw. For a non-empty motif it returns the
    * first position in the range at which the motif fits, or -1; for the empty motif, which
    * fits everywhere, it returns -1. */
  method ExactSearch(p: BitapPattern, sequence: Sequence, from: int, to: int) returns (r: Outcome<int>)
    requires p.Valid() && sequence.Valid()
    ensures r == Throws(IllegalArgument) <==> sequence.alphabet.size != p.motif.alphabet.size
    ensures r.Throws? ==> r.exception == IllegalArgument || r.exception == IndexOutOfBounds
    ensures sequence.alphabet.size == p.motif.alphabet.size && 0 <= from <= to <= |sequence.codes| ==> r.Ok?
    ensures r.Ok? && 1 <= p.motif.size && 0 <= from <= to <= |sequence.codes| ==>
              r.value == FirstOccurrence(p.motif, sequence.codes, from, to)
    ensures p.motif.size == 0 && sequence.alphabet.size == p.motif.alphabet.size && 0 <= from <= to <= |sequence.codes| ==>
              r == Ok(-1)
  {
    var scoring := ExactMatcher(p, sequence, from, to);
    if scoring.Throws? {
      return Throws(scoring.exception);
    }
    var mt := scoring.value.matcher;
    r := mt.FindNext();
    if r.Ok? && 1 <= p.motif.size && 0 <= from <= to <= |sequence.codes| {
      assert mt.Characterised();
      ExactMatcherFindsFirst(mt, p, sequence.codes, from, to, r.value);
    }
    if r.Ok? && p.motif.size == 0 && mt.Hit() {
      EmptyMotifRejects(mt, p, mt.mainState.consumed);
    }
  }

  /** The exact matcher's answer after its first `findNext` over `[from, to)` is the naive scan's. */
  lemma ExactMatcherFindsFirst(mt: Matcher, p: BitapPattern, sq: seq<int>, from: int, to: int, value: int)
    requires p.Valid() && 1 <= p.motif.size && mt.Valid() && mt.secondaryState == null
    requires mt.mainState.kind == ExactMatch && mt.mainState.data == p.mainData && mt.mainState.sequence == sq
    requires mt.mainState.start == from && mt.mainState.to == to && 0 <= from <= to <= |sq|
    requires mt.mainState.InRange()
    requires forall k :: 0 < k < |mt.mainState.consumed| ==> mt.RejectedAt(mt.mainState.consumed, k)
    requires mt.Hit() ==> value == mt.mainState.CurrentPosition() && mt.Accepts(mt.mainState.consumed)
    requires !mt.Hit() ==> && value == -1 && mt.mainState.current == to
                           && (!mt.Accepts(mt.mainState.consumed) || mt.mainState.consumed == [])
    ensures p.motif.alphabet.AreCodes(sq)
    ensures value == FirstOccurrence(p.motif, sq, from, to)
  {
    var it := mt.mainState;
    var c := it.consumed;
    var masks := p.mainData.patternMask;
    assert p.motif.alphabet.AreCodes(sq);
    forall i | 0 <= i < |c|
      ensures c[i] == sq[from + i]
    {
    }
    assert it.Track();
    assert it.current == from + |c| <= to;
    assert c == sq[from..from + |c|];
    forall k | 0 < k < |c|
      ensures Cost(masks, c[..k], p.motif.size) != 0
    {
      assert mt.RejectedAt(c, k);
      ExactAccepts(mt, p, c[..k]);
    }
    ExactAccepts(mt, p, c);
    ExactScanFindsFirst(p.motif, masks, sq, from, to, c, mt.Hit(), value);
  }

  /** Java's `exactSearch(sequence, from)`: the search up to the end of the sequence. */
  method ExactSearchFrom(p: BitapPattern, sequence: Sequence, from: int) returns (r: Outcome<int>)
    requires p.Valid() && sequence.Valid()
    ensures r == Throws(IllegalArgument) <==> sequence.alphabet.size != p.motif.alphabet.size
    ensures sequence.alphabet.size == p.motif.alphabet.size && 0 <= from <= |sequence.codes| ==> r.Ok?
    ensures r.Ok? && 1 <= p.motif.size && 0 <= from <= |sequence.codes| ==>
              r.value == FirstOccurrence(p.motif, sequence.codes, from, |sequence.codes|)
    ensures p.motif.size == 0 && sequence.alphabet.size == p.motif.alphabet.size && 0 <= from <= |sequence.codes| ==>
              r == Ok(-1)
  {
    r := ExactSearch(p, sequence, from, |sequence.codes|);
  }

  /** Java's `exactSearch(sequence)`: the first occurrence in the whole sequence. */
  method ExactSearchAll(p: BitapPattern, sequence: Sequence) returns (r: Outcome<int>)
    requires p.Valid() && sequence.Valid()
    ensures r.Throws? <==> sequence.alphabet.size != p.motif.alphabet.size
    ensures r.Throws? ==> r.exception == IllegalArgument
    ensures r.Ok? && 1 <= p.motif.size ==> r.value == FirstOccurrence(p.motif, sequence.codes, 0, |sequence.codes|)
    ensures r.Ok? && p.motif.size == 0 ==> r.value == -1
  {
    r := ExactSearch(p, sequence, 0, |sequence.codes|);
  }
}
