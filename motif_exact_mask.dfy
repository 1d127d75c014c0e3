/**
 * `MotifWithExactMask`: a motif together with the positions that must match exactly, and the
 * per-position bit scores a bitap pattern uses to score its hits. The score values come from
 * logarithms; here they are reals computed from the alphabet's cost table and a given logarithm.
 */
module MotifsWithExactMask {
  import opened Wrappers
  import opened Alphabets
  import opened Motifs

  /** A bit score that may be Java's `Double.NEGATIVE_INFINITY`. */
  datatype Score = Finite(value: real) | MinusInfinity

  datatype MotifWithExactMask = MotifWithExactMask(
    motif: Motif,
    /** `None` stands for a `null` mask. */
    exactMask: Option<seq<bool>>,
    defaultMatchScore: seq<real>,
    mismatchScore: seq<real>,
    /** `None` stands for the `NaN` of an empty motif. */
    averageMismatchPenalty: Option<real>)
  {
    /** Both score arrays have one entry per motif position. */
    predicate Valid() {
      motif.Valid() && |defaultMatchScore| == motif.size && |mismatchScore| == motif.size
    }

    /** Java's `size()`. */
    function Size(): (r: nat)
      requires Valid()
      ensures r == |defaultMatchScore| == |mismatchScore|
    {
      motif.size
    }
  }

  function Sum(a: seq<real>): real {
    if |a| == 0 then 0.0 else Sum(a[..|a| - 1]) + a[|a| - 1]
  }

  /** The number of set bits: Java's `BitArray.bitCount()`. */
  function Count(mask: seq<bool>): (r: nat)
    ensures r <= |mask|
  {
    if |mask| == 0 then 0 else Count(mask[..|mask| - 1]) + (if mask[|mask| - 1] then 1 else 0)
  }

  /** The argument of the logarithm in the length penalty: the number of fuzzy positions, at
    * least 1. */
  function LengthPenaltyArgument(size: nat, exactMask: Option<seq<bool>>): (r: int)
    ensures r >= 1
    ensures exactMask.None? || Count(exactMask.value) == 0 ==> r == (if size == 0 then 1 else size)
  {
    var fuzzy := size - (if exactMask.None? then 0 else Count(exactMask.value));
    if fuzzy < 1 then 1 else fuzzy
  }

  /** At most every basic letter is admitted at a position. */
  lemma AllowedBasicBound(m: Motif, position: int)
    requires m.Valid() && 0 <= position < m.size
    ensures |AllowedBasic(m, position)| <= m.alphabet.basicSize
  {
    Below(m.alphabet.basicSize);
    SubsetSize(AllowedBasic(m, position), Codes(m.alphabet.basicSize));
  }

  /** The codes below `n`. */
  function Codes(n: nat): set<int> {
    if n == 0 then {} else Codes(n - 1) + {n - 1}
  }

  lemma {:induction false} Below(n: nat)
    ensures |Codes(n)| == n
    ensures forall c :: c in Codes(n) <==> 0 <= c < n
  {
    if n > 0 {
      Below(n - 1);
    }
  }

  lemma {:induction false} SubsetSize<T>(a: set<T>, b: set<T>)
    requires a <= b
    ensures |a| <= |b|
    decreases |b|
  {
    if a != {} {
      var x :| x in a;
      SubsetSize(a - {x}, b - {x});
    }
  }

  /** The score of matching a basic letter at `position`: the cost of a position admitting that
    * many basic letters. */
  function DefaultScore(m: Motif, position: int): real
    requires m.Valid() && 0 <= position < m.size && |AllowedBasic(m, position)| >= 1
  {
    AllowedBasicBound(m, position);
    m.alphabet.cost[|AllowedBasic(m, position)| - 1]
  }

  /** Lowering every element of `a` by `d` lowers the sum by `|a| * d`. */
  lemma {:induction false} SumShift(a: seq<real>, b: seq<real>, d: real)
    requires |a| == |b| && forall k :: 0 <= k < |a| ==> b[k] == a[k] - d
    ensures Sum(a) - Sum(b) == |a| as real * d
  {
    if |a| > 0 {
      SumShift(a[..|a| - 1], b[..|b| - 1], d);
    }
  }

  /** The scores are the ones Java's constructor computes from the motif, the alphabet's cost
    * table and the logarithm `log`: the default match score of each position is the cost entry
    * for its number of admitted basic letters; the mismatch score lowers it by the length penalty
    * `log(fuzzy positions)` and by the cost of a single letter; the average penalty is their mean
    * difference. */
  ghost predicate ScoredBy(me: MotifWithExactMask, log: int -> real) {
    var m := me.motif;
    && me.Valid() && BasicAtEveryPosition(m)
    && (forall i :: 0 <= i < m.size ==>
          && me.defaultMatchScore[i] == DefaultScore(m, i)
          && me.mismatchScore[i] == DefaultScore(m, i) - MismatchPenalty(m, me.exactMask, log))
    && me.averageMismatchPenalty == if m.size == 0 then None else Some(MismatchPenalty(m, me.exactMask, log))
  }

  /** What a mismatch costs against a match at every position: the length penalty
    * `log(fuzzy positions)` plus the cost of a single letter. */
  function MismatchPenalty(m: Motif, exactMask: Option<seq<bool>>, log: int -> real): real
    requires m.Valid()
  {
    log(LengthPenaltyArgument(m.size, exactMask)) + m.alphabet.cost[0]
  }

  /** The first loop of Java's constructor: the default match scores and their sum. A position
    * admitting no basic letter reads `cost[-1]` and throws. */
  method DefaultScores(motif: Motif) returns (r: Outcome<seq<real>>, sum: real)
    requires motif.Valid()
    ensures r.Throws? <==> !BasicAtEveryPosition(motif)
    ensures r.Throws? ==> r.exception == IndexOutOfBounds
    ensures r.Ok? ==> |r.value| == motif.size && sum == Sum(r.value)
                      && forall i :: 0 <= i < motif.size ==> r.value[i] == DefaultScore(motif, i)
  {
    var costArray := motif.alphabet.cost;
    var size := motif.size;
    var defaultMatchScore := new real[size];
    sum := 0.0;
    for i := 0 to size
      invariant forall k :: 0 <= k < i ==> |AllowedBasic(motif, k)| >= 1 && defaultMatchScore[k] == DefaultScore(motif, k)
      invariant sum == Sum(defaultMatchScore[..i])
    {
      var allowed := AllowedBasicCodes(motif, i);
      if allowed - 1 < 0 {
        return Throws(IndexOutOfBounds), sum;
      }
      defaultMatchScore[i] := costArray[allowed - 1];
      sum := sum + defaultMatchScore[i];
      assert defaultMatchScore[..i + 1][..i] == defaultMatchScore[..i];
    }
    assert defaultMatchScore[..size] == defaultMatchScore[..];
    return Ok(defaultMatchScore[..]), sum;
  }

  /** The second loop of Java's constructor: each mismatch score is the default score lowered by
    * `penalty`, and `sum` drops by every mismatch score. */
  method MismatchScores(defaultMatchScore: seq<real>, penalty: real, sum: real) returns (mismatchScore: seq<real>, rest: real)
    requires sum == Sum(defaultMatchScore)
    ensures |mismatchScore| == |defaultMatchScore|
    ensures forall k :: 0 <= k < |mismatchScore| ==> mismatchScore[k] == defaultMatchScore[k] - penalty
    ensures rest == |defaultMatchScore| as real * penalty
  {
    var scores := new real[|defaultMatchScore|](k requires 0 <= k < |defaultMatchScore| => defaultMatchScore[k]);
    rest := sum;
    for i := 0 to scores.Length
      invariant forall k :: 0 <= k < i ==> scores[k] == defaultMatchScore[k] - penalty
      invariant forall k :: i <= k < scores.Length ==> scores[k] == defaultMatchScore[k]
      invariant rest == Sum(defaultMatchScore) - Sum(scores[..i])
    {
      scores[i] := scores[i] - penalty;
      rest := rest - scores[i];
      assert scores[..i + 1][..i] == scores[..i];
    }
    assert scores[..scores.Length] == scores[..];
    SumShift(defaultMatchScore, scores[..], penalty);
    return scores[..], rest;
  }

  /** `n` equal terms `x` average to `x`. */
  lemma MeanOfEqual(total: real, n: real, x: real)
    requires n > 0.0 && total == n * x
    ensures total / n == x
  {
  }

  /** Java's constructor; see `ScoredBy`. The mismatch loop subtracts the length penalty and
    * then the single-letter cost, here as one subtraction of their sum. */
  method New(motif: Motif, exactMask: Option<seq<bool>>, log: int -> real) returns (r: Outcome<MotifWithExactMask>)
    requires motif.Valid()
    ensures r.Throws? <==> !BasicAtEveryPosition(motif)
    ensures r.Throws? ==> r.exception == IndexOutOfBounds
    ensures r.Ok? ==> ScoredBy(r.value, log) && r.value.motif == motif && r.value.exactMask == exactMask
  {
    var defaults, sum := DefaultScores(motif);
    if defaults.Throws? {
      return Throws(defaults.exception);
    }
    var lengthPenalty := log(LengthPenaltyArgument(motif.size, exactMask));
    var penalty := lengthPenalty + motif.alphabet.cost[0];
    assert penalty == MismatchPenalty(motif, exactMask, log);
    var mismatches, rest := MismatchScores(defaults.value, penalty, sum);
    var mean := if motif.size == 0 then None else Some(rest / motif.size as real);
    if motif.size > 0 {
      MeanOfEqual(rest, |defaults.value| as real, penalty);
    }
    return Ok(MotifWithExactMask(motif, exactMask, defaults.value, mismatches, mean));
  }

  /** Java's `getDefaultMatchBitScore(position)`: the cost entry for the position's number of
    * admitted basic letters. */
  function DefaultMatchBitScore(me: MotifWithExactMask, position: int): (r: real)
    requires me.Valid() && 0 <= position < me.motif.size
    ensures forall log :: ScoredBy(me, log) ==> r == DefaultScore(me.motif, position)
  {
    me.defaultMatchScore[position]
  }

  /** Java's `getMatchBitScore(position, code)`: the default score for a basic letter; for a
    * wildcard, the cost of the wider of the wildcard and the position's admitted basic letters. */
  function MatchBitScore(me: MotifWithExactMask, position: int, code: int): (r: real)
    requires me.Valid() && 0 <= position < me.motif.size && me.motif.alphabet.IsCode(code)
    ensures code < me.motif.alphabet.basicSize ==> r == me.defaultMatchScore[position]
    ensures code >= me.motif.alphabet.basicSize ==>
              var a := me.motif.alphabet;
              var widest := if |AllowedBasic(me.motif, position)| >= a.wildcards[code].basicSize
                            then |AllowedBasic(me.motif, position)| else a.wildcards[code].basicSize;
              1 <= widest <= a.basicSize && r == a.cost[widest - 1]
  {
    var a := me.motif.alphabet;
    if code < a.basicSize then me.defaultMatchScore[position]
    else
      AllowedBasicBound(me.motif, position);
      var allowed := |AllowedBasic(me.motif, position)|;
      var breadth := a.wildcards[code].basicSize;
      a.cost[(if allowed >= breadth then allowed else breadth) - 1]
  }

  /** Java's `getMismatchBitScore(position)`: minus infinity at an exact position, the stored
    * mismatch score elsewhere; a `null` mask throws `NullPointerException`, a position past the
    * mask's end throws. */
  function MismatchBitScore(me: MotifWithExactMask, position: int): (r: Outcome<Score>)
    requires me.Valid() && 0 <= position < me.motif.size
    ensures r.Throws? <==> me.exactMask.None? || position >= |me.exactMask.value|
    ensures me.exactMask.None? ==> r == Throws(NullPointer)
    ensures r.Ok? && me.exactMask.value[position] ==> r.value == MinusInfinity
    ensures r.Ok? && !me.exactMask.value[position] ==> r.value == Finite(me.mismatchScore[position])
  {
    if me.exactMask.None? then Throws(NullPointer)
    else if position >= |me.exactMask.value| then Throws(IndexOutOfBounds)
    else if me.exactMask.value[position] then Ok(MinusInfinity)
    else Ok(Finite(me.mismatchScore[position]))
  }

  /** Java's `getExactMask()`: a fresh copy of the mask, so the caller cannot alter the stored
    * one; `clone()` on a `null` mask throws `NullPointerException`. */
  method ExactMask(me: MotifWithExactMask) returns (r: Outcome<array<bool>>)
    ensures r.Throws? <==> me.exactMask.None?
    ensures me.exactMask.None? ==> r == Throws(NullPointer)
    ensures r.Ok? ==> fresh(r.value) && r.value[..] == me.exactMask.value
  {
    if me.exactMask.None? {
      return Throws(NullPointer);
    }
    var mask := me.exactMask.value;
    var copy := new bool[|mask|](k requires 0 <= k < |mask| => mask[k]);
    return Ok(copy);
  }

  /** `Character.isUpperCase` on the ASCII letters. */
  predicate IsUpperCase(ch: char) {
    'A' <= ch <= 'Z'
  }

  /** The loop of Java's `from`: bit `i` of the mask is set exactly when character `i` of the
    * motif string is upper case. */
  method CaseMask(motifString: string) returns (mask: seq<bool>)
    ensures |mask| == |motifString|
    ensures forall i :: 0 <= i < |motifString| ==> (mask[i] <==> IsUpperCase(motifString[i]))
  {
    var bits := new bool[|motifString|];
    for i := 0 to |motifString|
      invariant forall k :: 0 <= k < i ==> (bits[k] <==> IsUpperCase(motifString[k]))
    {
      bits[i] := IsUpperCase(motifString[i]);
    }
    return bits[..];
  }

  /** Java's `from(alphabet, motifString)`, given the motif the alphabet parses the string to:
    * the parsed motif must have one position per character, and the upper-case characters are
    * the exact positions. */
  method From(parsed: Motif, motifString: string, log: int -> real) returns (r: Outcome<MotifWithExactMask>)
    requires parsed.Valid()
    ensures parsed.size != |motifString| ==> r == Throws(IllegalArgument)
    ensures parsed.size == |motifString| && !BasicAtEveryPosition(parsed) ==> r == Throws(IndexOutOfBounds)
    ensures r.Ok? ==> r.value.Valid() && r.value.motif == parsed && r.value.exactMask.Some?
                      && |r.value.exactMask.value| == |motifString|
                      && forall i :: 0 <= i < |motifString| ==>
                           (r.value.exactMask.value[i] <==> IsUpperCase(motifString[i]))
  {
    if parsed.size != |motifString| {
      return Throws(IllegalArgument);
    }
    var mask := CaseMask(motifString);
    r := New(parsed, Some(mask), log);
  }
}
