/**
 * The four scan cursors of the bitap matcher. Each consumes the target one code per call of
 * `NextState`, rewriting its shift registers `R` in place; `match` and `errors` report whether the
 * motif ends (or, for the reversed cursor, starts) at the code just consumed and with how many
 * errors.
 */
module StateIterators {
  import opened Wrappers
  import opened Bits
  import opened Alphabets
  import opened BitapDatas
  import opened Automata

  /** Which of the source's four cursor classes a cursor is. */
  datatype Kind =
    | ExactMatch                  // no errors, one register
    | SubstitutionOnlyFirst       // substitutions only
    | SubstitutionAndIndelLast    // substitutions and indels, scanning forward
    | SubstitutionAndIndelFirst   // substitutions and indels, scanning backward with the reversed masks
  {
    predicate Backward() { SubstitutionAndIndelFirst? }
    predicate Indel() { SubstitutionAndIndelLast? || SubstitutionAndIndelFirst? }
  }

  /** Register `r` of level `d` reports a hit: its bit `n` is clear and, above level 0, the
    * cursor's guard on the number of processed symbols holds. */
  ghost predicate Hits(r: Long, d: int, n: int, guard: bool) {
    BitClear(r, n) && (d == 0 || guard)
  }

  /** `found` and `errors` name the least level of `regs` that reports a hit, if any. */
  ghost predicate LeastHit(regs: seq<Long>, n: int, guard: bool, found: bool, errors: int) {
    && (!found ==> forall e :: 0 <= e < |regs| ==> !Hits(regs[e], e, n, guard))
    && (found ==> 0 <= errors < |regs| && Hits(regs[errors], errors, n, guard)
                  && forall e :: 0 <= e < errors ==> !Hits(regs[e], e, n, guard))
  }

  /** Testing one more level in order keeps `found` and `errors` on the least reporting level. */
  lemma LeastHitGrow(regs: seq<Long>, r: Long, n: int, guard: bool, found: bool, errors: int)
    requires LeastHit(regs, n, guard, found, errors)
    ensures found ==> LeastHit(regs + [r], n, guard, found, errors)
    ensures !found && Hits(r, |regs|, n, guard) ==> LeastHit(regs + [r], n, guard, true, |regs|)
    ensures !found && !Hits(r, |regs|, n, guard) ==> LeastHit(regs + [r], n, guard, false, errors)
  {
    var grown := regs + [r];
    assert forall e :: 0 <= e < |regs| ==> grown[e] == regs[e];
  }

  /** When every level below 64 passes the bit test exactly when `dist` is within its budget, the
    * least reporting level is `dist`, and some level reports exactly when `dist` is a level and
    * passes the guard. */
  lemma {:induction false} LeastReportingLevel(regs: seq<Long>, n: int, guard: bool, dist: nat,
                                               found: bool, errors: int)
    requires dist < 64 || |regs| <= 64
    requires forall e :: 0 <= e < |regs| && e < 64 ==> (BitClear(regs[e], n) <==> dist <= e)
    requires LeastHit(regs, n, guard, found, errors)
    ensures found <==> dist < |regs| && (dist == 0 || guard)
    ensures found ==> errors == dist
  {
    if found {
      assert dist < errors ==> Hits(regs[dist], dist, n, guard);
    } else {
      assert dist < |regs| && (dist == 0 || guard) ==> Hits(regs[dist], dist, n, guard);
    }
  }

  class StateIterator {
    const kind: Kind
    const data: BitapData
    /** The codes of the target sequence. */
    const sequence: seq<int>
    var errors: int
    const R: array<Long>
    /** The value of `current` at which the cursor is exhausted (plus one for the backward cursor,
      * whose source class stores `from` here). */
    const to: int
    var symbolsProcessed: int
    var current: int
    /** Java's `match`: the last step reported a hit. */
    var matched: bool

    /** The masks the cursor reads: reversed for the backward cursor. */
    ghost const masks: seq<Long>
    /** The position of the first code the cursor reads. */
    ghost const start: int
    /** The codes consumed so far, in scan order. */
    ghost var consumed: seq<int>
    /** Set once a step has thrown; the source's object is then in an unspecified state. */
    ghost var failed: bool

    /** +1 for the forward cursors, -1 for the backward one. */
    function Dir(): int {
      if kind.Backward() then -1 else 1
    }

    /** The value of `current` at which `nextState` returns false. */
    function End(): int {
      if kind.Backward() then to - 1 else to
    }

    /** A bound on the steps left: the distance to `End()` when it lies ahead, otherwise the
      * distance to the edge of the sequence, where the next read throws. */
    function Remaining(): int
      reads this
    {
      var ahead := Dir() * (End() - current);
      if ahead >= 0 then ahead else if Dir() == 1 then |sequence| - current else current + 1
    }

    /** Every position the cursor still has to read lies inside the sequence. */
    predicate InRange()
      reads this
    {
      if Dir() == 1 then 0 <= current <= End() <= |sequence| else -1 <= End() <= current < |sequence|
    }

    /** The register bit that signals a hit: Java's `1L << (size - 1)`. */
    function HitBit(): nat {
      ShiftDistance(data.size - 1)
    }

    /** The guard the source puts on reports above level 0, for `n` processed symbols. */
    function GuardFor(n: int): bool {
      match kind
      case ExactMatch => true
      case SubstitutionOnlyFirst => n >= data.size
      case _ => n >= data.size - R.Length + 1
    }

    ghost predicate Level(s: seq<int>, r: Long, d: int)
      requires AreCodes(masks, s)
    {
      if kind.Indel() then EditLevel(masks, s, r, d) else SubstitutionLevel(masks, s, r, d)
    }

    /** Every register below level 64 holds exactly the alignments of its error budget over `s`. */
    ghost predicate Describes(regs: seq<Long>, s: seq<int>)
      requires AreCodes(masks, s)
    {
      if kind.Indel() then EditLevels(masks, s, regs) else SubstitutionLevels(masks, s, regs)
    }

    /** The distance the cursor's automaton computes for the pattern read against `s`. */
    ghost function Distance(s: seq<int>): nat
      requires AreCodes(masks, s)
    {
      var p := HitBit() + 1;
      if kind.Indel() then Edit(masks, s, p) else Cost(masks, s, p)
    }

    /** After consuming `s`, the cursor reports a hit. */
    ghost predicate HitAfter(s: seq<int>)
      requires AreCodes(masks, s)
    {
      Distance(s) < R.Length && (Distance(s) == 0 || GuardFor(|s|))
    }

    /** The least reporting level is one the registers characterise: the motif is not empty, or
      * there are at most 64 levels. */
    predicate Characterised() {
      data.size >= 1 || R.Length <= 64
    }

    /** The invariant part that holds even after a step has thrown. */
    ghost predicate Static()
      reads this
    {
      && data.Valid()
      && masks == (if kind.Backward() then data.reversePatternMask else data.patternMask)
      && AreCodes(data.patternMask, sequence)
      && (kind == ExactMatch ==> R.Length == 1 && errors == 0)
    }

    /** `cons` is the run of the target read from `start` in scan order, `cur` the next position to
      * read and `processed` the source's count of processed symbols. */
    ghost predicate TrackOf(cur: int, cons: seq<int>, processed: int) {
      && cur == start + Dir() * |cons|
      && (forall i :: 0 <= i < |cons| ==>
            0 <= start + Dir() * i < |sequence| && cons[i] == sequence[start + Dir() * i])
      && processed == (if kind == ExactMatch then 0 else |cons|)
      && AreCodes(masks, cons)
    }

    ghost predicate Track()
      reads this
    {
      TrackOf(current, consumed, symbolsProcessed)
    }

    /** Reading the code at `cur` extends the run by that code. */
    lemma TrackAppend(cur: int, cons: seq<int>, processed: int)
      requires Static() && TrackOf(cur, cons, processed) && 0 <= cur < |sequence|
      ensures AreCodes(masks, cons + [sequence[cur]])
      ensures TrackOf(cur + Dir(), cons + [sequence[cur]],
                      if kind == ExactMatch then 0 else processed + 1)
    {
      var cons' := cons + [sequence[cur]];
      forall i | 0 <= i < |cons'|
        ensures 0 <= start + Dir() * i < |sequence| && cons'[i] == sequence[start + Dir() * i]
      {
        if i == |cons| {
          assert start + Dir() * i == cur;
        } else {
          assert cons'[i] == cons[i];
        }
      }
      assert AreCodes(masks, cons');
    }

    ghost predicate Valid()
      reads this, R
    {
      Static() && (!failed ==> Track() && Describes(R[..], consumed))
    }

    /** After a step that consumed a code: `match` and `errors` are what the automaton promises. */
    ghost predicate Reported(oldErrors: int)
      reads this, R
      requires Valid() && !failed
    {
      && (!matched ==> errors == oldErrors)
      && (Characterised() ==> (matched <==> HitAfter(consumed)) && (matched ==> errors == Distance(consumed)))
    }

    /** Java's `currentPosition()`: where the hit starts (forward cursors without indels), ends
      * (forward indel cursor) or starts (backward cursor). Over the run read so far, that is the
      * first position of the window of the last `size` codes, or the position of the last code
      * read. */
    function CurrentPosition(): (r: int)
      reads this
      ensures Track() && !kind.Indel() ==> r == start + |consumed| - data.size
      ensures Track() && kind.Indel() && consumed != [] ==> r == start + Dir() * (|consumed| - 1)
    {
      match kind
      case ExactMatch => current - data.size
      case SubstitutionOnlyFirst => current - data.size
      case SubstitutionAndIndelLast => current - 1
      case SubstitutionAndIndelFirst => current + 1
    }

    /** Java's base constructor `BitapStateIterator(data, sequence, count, from, to)`, given the
      * alphabet check already passed: `count` registers, `R[i] = ~0L << i`, reading starts at `from`. */
    constructor (kind: Kind, data: BitapData, sequence: Sequence, count: int, from: int, to: int)
      requires data.Valid() && sequence.Valid() && sequence.alphabet.size == |data.patternMask|
      requires count >= 0 && (kind == ExactMatch ==> count == 1)
      ensures Valid() && !failed
      ensures this.kind == kind && this.data == data && this.sequence == sequence.codes && this.to == to
      ensures current == from && start == from && consumed == [] && symbolsProcessed == 0
      ensures !matched && errors == 0
      ensures fresh(R) && R.Length == count && forall i :: 0 <= i < count ==> R[i] == OnesFrom(i)
    {
      this.kind := kind;
      this.data := data;
      this.sequence := sequence.codes;
      this.masks := if kind.Backward() then data.reversePatternMask else data.patternMask;
      this.start := from;
      var registers := new Long[count](i => Zero);
      for i := 0 to count
        invariant forall e :: 0 <= e < i ==> registers[e] == OnesFrom(e)
      {
        registers[i] := OnesFrom(i);
      }
      this.R := registers;
      this.to := to;
      this.current := from;
      this.errors := 0;
      this.symbolsProcessed := 0;
      this.matched := false;
      this.consumed := [];
      this.failed := false;
      new;
      forall d | 0 <= d < count && d < 64
        ensures SubstitutionLevel(masks, [], R[..][d], d) && EditLevel(masks, [], R[..][d], d)
      {
        InitialLevel(masks, d);
      }
    }
  
    /** The step consumed the code at the old `current` and reports on the new input. */
    twostate predicate Stepped()
      reads this, R
    {
      && Valid() && !failed
      && 0 <= old(current) < |sequence|
      && current == old(current) + Dir()
      && consumed == old(consumed) + [sequence[old(current)]]
      && Reported(old(errors))
    }

    /** The step threw, keeping the effects that precede the throw. Either the code at `current`
      * was out of range: the exact cursor has already shifted `R[0]`, the indel cursors have
      * already counted the symbol and moved `current`. Or the cursor has no register: the code was
      * read, counted and passed, and the first access to `R[0]` throws. */
    twostate predicate Crashed()
      reads this, R
    {
      var moved := kind.Indel() || (R.Length == 0 && 0 <= old(current) < |sequence|);
      && failed && !matched && errors == old(errors) && (kind == ExactMatch ==> R.Length == 1)
      && current == old(current) + (if moved then Dir() else 0)
      && symbolsProcessed == old(symbolsProcessed) + (if moved then 1 else 0)
      && R[..] == (if kind == ExactMatch then old(R[..])[0 := Shl1(old(R[0]))] else old(R[..]))
    }

    /** Java's `nextState()`: false at the end of the range, otherwise consumes one code and
      * reports through `matched` and `errors`. */
    method NextState() returns (r: Outcome<bool>)
      requires Valid() && !failed
      modifies this, R
      ensures Valid()
      ensures r == Ok(false) <==> old(current) == End()
      ensures r.Throws? <==> old(current) != End() && (!(0 <= old(current) < |sequence|) || R.Length == 0)
      ensures r.Throws? ==> r.exception == IndexOutOfBounds && Crashed()
      ensures r == Ok(false) ==> !failed && !matched && current == old(current) && consumed == old(consumed)
                                 && R[..] == old(R[..]) && errors == old(errors)
                                 && symbolsProcessed == old(symbolsProcessed)
      ensures r == Ok(true) ==> Stepped()
    {
      matched := false;
      if current == End() {
        return Ok(false);
      }
      match kind {
        case ExactMatch => r := ExactStep();
        case SubstitutionOnlyFirst => r := SubstitutionStep();
        case _ => r := IndelStep();
      }
    }

    /** The main part of the exact cursor's step: `R0 = (R0 << 1) | mask`, the shift happening
      * before the code is read. */
    method ExactStep() returns (r: Outcome<bool>)
      requires Valid() && !failed && kind == ExactMatch && current != End() && !matched
      modifies this, R
      ensures Valid()
      ensures r.Throws? <==> !(0 <= old(current) < |sequence|)
      ensures r.Throws? ==> r.exception == IndexOutOfBounds && Crashed()
      ensures r.Ok? ==> r.value && Stepped()
    {
      ghost var prev := R[..];
      R[0] := Shl1(R[0]);
      if !(0 <= current < |sequence|) {
        failed := true;
        return Throws(IndexOutOfBounds);
      }
      var code := sequence[current];
      TrackAppend(current, consumed, symbolsProcessed);
      ghost var before := consumed;
      current := current + 1;
      consumed := consumed + [code];
      ExactUpdate(data.patternMask[code]);
      Settle(before, code, prev);
      return Ok(true);
    }

    /** The rest of the exact cursor's step: `R0 |= mask` and the test of the pattern's last bit. */
    method ExactUpdate(currentPatternMask: Long)
      requires kind == ExactMatch && R.Length == 1 && errors == 0
      modifies R, `matched
      ensures R[0] == Or(old(R[0]), currentPatternMask)
      ensures LeastHit(R[..], data.size - 1, true, matched, errors)
    {
      R[0] := Or(R[0], currentPatternMask);
      matched := BitClear(R[0], data.size - 1);
    }

    /** The main part of the substitution-only cursor's step: read the code at `current`, count
      * it and update the registers with its mask. */
    method SubstitutionStep() returns (r: Outcome<bool>)
      requires Valid() && !failed && kind == SubstitutionOnlyFirst && current != End() && !matched
      modifies this, R
      ensures Valid()
      ensures r.Throws? <==> !(0 <= old(current) < |sequence|) || R.Length == 0
      ensures r.Throws? ==> r.exception == IndexOutOfBounds && Crashed()
      ensures r.Ok? ==> r.value && Stepped()
    {
      if !(0 <= current < |sequence|) {
        failed := true;
        return Throws(IndexOutOfBounds);
      }
      var code := sequence[current];
      TrackAppend(current, consumed, symbolsProcessed);
      current := current + 1;
      symbolsProcessed := symbolsProcessed + 1;
      if R.Length == 0 {
        failed := true;
        return Throws(IndexOutOfBounds);
      }
      ghost var before := consumed;
      ghost var prev := R[..];
      consumed := consumed + [code];
      SubstitutionUpdate(data.patternMask[code]);
      Settle(before, code, prev);
      return Ok(true);
    }

    /** The register update of the substitution-only cursor: level 0 as in the exact cursor, then
      * every level above in turn, the least clear level reporting once `symbolsProcessed >= size`. */
    method SubstitutionUpdate(currentPatternMask: Long)
      requires kind == SubstitutionOnlyFirst && R.Length >= 1 && !matched
      modifies R, `errors, `matched
      ensures SubstitutionChain(old(R[..]), currentPatternMask, R[..])
      ensures LeastHit(R[..], data.size - 1, GuardFor(symbolsProcessed), matched, errors)
      ensures !matched ==> errors == old(errors)
    {
      ghost var prev := R[..];
      var mismatchTmp := Shl1(R[0]);
      R[0] := Or(mismatchTmp, currentPatternMask);
      if BitClear(R[0], data.size - 1) {
        errors := 0;
        matched := true;
      }
      ghost var done := [R[0]];

      var d := 1;
      while d < R.Length
        invariant 1 <= d <= R.Length && |done| == d
        invariant forall e :: 0 <= e < d ==> R[e] == done[e]
        invariant forall e :: d <= e < R.Length ==> R[e] == prev[e]
        invariant SubstitutionChain(prev, currentPatternMask, done)
        invariant mismatchTmp == Shl1(prev[d - 1])
        invariant !matched ==> errors == old(errors)
        invariant LeastHit(done, data.size - 1, GuardFor(symbolsProcessed), matched, errors)
      {
        var preMismatchTmp;
        preMismatchTmp, done := SubstitutionUpdateLevel(currentPatternMask, d, mismatchTmp, prev, done);
        mismatchTmp := preMismatchTmp;
        d := d + 1;
      }
      assert R[..] == done;
    }

    /** One level `d >= 1` of the substitution update:
      * `R[d] = ((R[d] << 1) | mask) & mismatchTmp`, where `mismatchTmp` is the shifted previous
      * `R[d - 1]`, and the hit test of the new `R[d]`. Returns the shifted previous `R[d]`. */
    method SubstitutionUpdateLevel(currentPatternMask: Long, d: int, mismatchTmp: Long,
                                   ghost prev: seq<Long>, ghost done: seq<Long>)
      returns (preMismatchTmp: Long, ghost done': seq<Long>)
      requires kind == SubstitutionOnlyFirst && 1 <= d < R.Length == |prev| && |done| == d && R[d] == prev[d]
      requires SubstitutionChain(prev, currentPatternMask, done) && mismatchTmp == Shl1(prev[d - 1])
      requires LeastHit(done, data.size - 1, GuardFor(symbolsProcessed), matched, errors)
      modifies R, `errors, `matched
      ensures done' == done + [R[d]] && SubstitutionChain(prev, currentPatternMask, done')
      ensures forall e :: 0 <= e < R.Length && e != d ==> R[e] == old(R[e])
      ensures preMismatchTmp == Shl1(prev[d])
      ensures LeastHit(done', data.size - 1, GuardFor(symbolsProcessed), matched, errors)
      ensures !matched ==> errors == old(errors)
    {
      preMismatchTmp := Shl1(R[d]);
      R[d] := And(Or(preMismatchTmp, currentPatternMask), mismatchTmp);
      LeastHitGrow(done, R[d], data.size - 1, GuardFor(symbolsProcessed), matched, errors);
      if !matched && BitClear(R[d], data.size - 1) && symbolsProcessed >= data.size {
        errors := d;
        matched := true;
      }
      done' := done + [R[d]];
    }

    /** The main part of the indel cursors' steps: count the symbol, read the code at `current`
      * while moving `current` one step in scan direction (`current++` or `current--`), and
      * update the registers with the code's mask. */
    method IndelStep() returns (r: Outcome<bool>)
      requires Valid() && !failed && kind.Indel() && current != End() && !matched
      modifies this, R
      ensures Valid()
      ensures r.Throws? <==> !(0 <= old(current) < |sequence|) || R.Length == 0
      ensures r.Throws? ==> r.exception == IndexOutOfBounds && Crashed()
      ensures r.Ok? ==> r.value && Stepped()
    {
      symbolsProcessed := symbolsProcessed + 1;
      var position := current;
      current := current + Dir();
      if !(0 <= position < |sequence|) {
        failed := true;
        return Throws(IndexOutOfBounds);
      }
      var code := sequence[position];
      TrackAppend(position, consumed, symbolsProcessed - 1);
      var currentPatternMask := if kind.Backward() then data.reversePatternMask[code] else data.patternMask[code];
      assert currentPatternMask == masks[code];
      if R.Length == 0 {
        failed := true;
        return Throws(IndexOutOfBounds);
      }
      ghost var before := consumed;
      ghost var prev := R[..];
      consumed := consumed + [code];
      UpdateState(currentPatternMask);
      Settle(before, code, prev);
      return Ok(true);
    }

    /** Java's `IndelStateIterator.updateState`: level 0 as in the exact cursor, then every level
      * above in turn, the least clear level reporting once
      * `symbolsProcessed >= size - R.length + 1`. */
    method UpdateState(currentPatternMask: Long)
      requires kind.Indel() && R.Length >= 1 && !matched
      modifies R, `errors, `matched
      ensures EditChain(old(R[..]), currentPatternMask, R[..])
      ensures LeastHit(R[..], data.size - 1, GuardFor(symbolsProcessed), matched, errors)
      ensures !matched ==> errors == old(errors)
    {
      ghost var prev := R[..];
      var insertionTmp := R[0];
      var mismatchTmp := Shl1(R[0]);
      R[0] := Or(mismatchTmp, currentPatternMask);
      var deletionTmp := R[0];
      if BitClear(R[0], data.size - 1) {
        errors := 0;
        matched := true;
      }
      ghost var done := [R[0]];

      var d := 1;
      while d < R.Length
        invariant 1 <= d <= R.Length && |done| == d
        invariant forall e :: 0 <= e < d ==> R[e] == done[e]
        invariant forall e :: d <= e < R.Length ==> R[e] == prev[e]
        invariant EditChain(prev, currentPatternMask, done)
        invariant insertionTmp == prev[d - 1] && mismatchTmp == Shl1(prev[d - 1]) && deletionTmp == done[d - 1]
        invariant !matched ==> errors == old(errors)
        invariant LeastHit(done, data.size - 1, GuardFor(symbolsProcessed), matched, errors)
      {
        var preInsertionTmp, preMismatchTmp;
        preInsertionTmp, preMismatchTmp, deletionTmp, done :=
          IndelUpdateLevel(currentPatternMask, d, insertionTmp, mismatchTmp, deletionTmp, prev, done);
        insertionTmp := preInsertionTmp;
        mismatchTmp := preMismatchTmp;
        d := d + 1;
      }
      assert R[..] == done;
    }

    /** One level `d >= 1` of the indel update:
      * `R[d] = ((R[d] << 1) | mask) & insertionTmp & mismatchTmp & (deletionTmp << 1)`, where the
      * temporaries are the previous `R[d - 1]`, its shift and the new `R[d - 1]`, and the hit test
      * of the new `R[d]`. Returns the previous `R[d]`, its shift and the new `R[d]`. */
    method IndelUpdateLevel(currentPatternMask: Long, d: int, insertionTmp: Long, mismatchTmp: Long,
                            deletionTmp: Long, ghost prev: seq<Long>, ghost done: seq<Long>)
      returns (preInsertionTmp: Long, preMismatchTmp: Long, updated: Long, ghost done': seq<Long>)
      requires kind.Indel() && 1 <= d < R.Length == |prev| && |done| == d && R[d] == prev[d]
      requires EditChain(prev, currentPatternMask, done)
      requires insertionTmp == prev[d - 1] && mismatchTmp == Shl1(prev[d - 1]) && deletionTmp == done[d - 1]
      requires LeastHit(done, data.size - 1, GuardFor(symbolsProcessed), matched, errors)
      modifies R, `errors, `matched
      ensures done' == done + [R[d]] && EditChain(prev, currentPatternMask, done')
      ensures forall e :: 0 <= e < R.Length && e != d ==> R[e] == old(R[e])
      ensures preInsertionTmp == prev[d] && preMismatchTmp == Shl1(prev[d]) && updated == R[d]
      ensures LeastHit(done', data.size - 1, GuardFor(symbolsProcessed), matched, errors)
      ensures !matched ==> errors == old(errors)
    {
      preInsertionTmp := R[d];
      preMismatchTmp := Shl1(R[d]);
      R[d] := And(Or(preMismatchTmp, currentPatternMask), And(And(insertionTmp, mismatchTmp), Shl1(deletionTmp)));
      LeastHitGrow(done, R[d], data.size - 1, GuardFor(symbolsProcessed), matched, errors);
      if !matched && BitClear(R[d], data.size - 1) && symbolsProcessed >= data.size - R.Length + 1 {
        errors := d;
        matched := true;
      }
      done' := done + [R[d]];
      updated := R[d];
    }

    /** The registers after the update with the mask of `code`. */
    ghost predicate Updated(prev: seq<Long>, code: int)
      reads this, R
      requires 0 <= code < |masks| && |prev| == R.Length
    {
      if kind.Indel() then EditChain(prev, masks[code], R[..]) else SubstitutionChain(prev, masks[code], R[..])
    }

    /** After the update with the mask of `code`, the registers describe the longer input and the
      * least reporting level is the one the automaton promises. */
    lemma Settle(before: seq<int>, code: int, prev: seq<Long>)
      requires Static() && !failed && Track() && consumed == before + [code]
      requires AreCodes(masks, before) && 0 <= code < |masks| && |prev| == R.Length
      requires Describes(prev, before) && Updated(prev, code)
      requires LeastHit(R[..], data.size - 1, GuardFor(|consumed|), matched, errors)
      ensures Valid()
      ensures Characterised() ==> (matched <==> HitAfter(consumed)) && (matched ==> errors == Distance(consumed))
    {
      if kind.Indel() {
        EditRegistersStep(masks, before, code, prev, R[..]);
      } else {
        SubstitutionRegistersStep(masks, before, code, prev, R[..]);
      }
      Conclude(R[..], consumed, matched, errors);
    }

    /** The hit test of a register that describes level `d` after `s` passes exactly when the
      * automaton's distance is within the level's budget. */
    lemma LevelTest(s: seq<int>, r: Long, d: int)
      requires AreCodes(masks, s) && Level(s, r, d)
      ensures BitClear(r, data.size - 1) <==> Distance(s) <= d
    {
      TestOneAt(r, data.size - 1);
      assert !r[HitBit()] <==> Distance(s) <= d;
    }

    /** Reads the least reporting level off registers that describe `consumed`. */
    lemma Conclude(regs: seq<Long>, s: seq<int>, found: bool, errors: int)
      requires Static() && AreCodes(masks, s) && |regs| == R.Length && Describes(regs, s)
      requires LeastHit(regs, data.size - 1, GuardFor(|s|), found, errors)
      ensures Characterised() ==> (found <==> HitAfter(s)) && (found ==> errors == Distance(s))
    {
      if Characterised() {
        var dist := Distance(s);
        EditAtMostLength(masks, s, HitBit() + 1);
        forall e | 0 <= e < |regs| && e < 64
          ensures BitClear(regs[e], data.size - 1) <==> dist <= e
        {
          LevelTest(s, regs[e], e);
        }
        LeastReportingLevel(regs, data.size - 1, GuardFor(|s|), dist, found, errors);
      }
    }
  }

  /** Java's base constructor with its alphabet check: the sequence's alphabet must have exactly
    * one code per mask, and only then is the register array of `count` longs allocated. */
  method Create(kind: Kind, data: BitapData, sequence: Sequence, count: int, from: int, to: int)
    returns (r: Outcome<StateIterator>)
    requires data.Valid() && sequence.Valid()
    requires kind == ExactMatch ==> count == 1
    ensures r.Throws? <==> sequence.alphabet.size != |data.patternMask| || count < 0
    ensures r.Throws? ==> r.exception == (if sequence.alphabet.size != |data.patternMask| then IllegalArgument
                                          else NegativeArraySize)
    ensures r.Ok? ==> && fresh(r.value) && fresh(r.value.R)
                      && r.value.Valid() && !r.value.failed && !r.value.matched
                      && r.value.kind == kind && r.value.data == data && r.value.sequence == sequence.codes
                      && r.value.R.Length == count && r.value.to == to
                      && r.value.current == from && r.value.start == from && r.value.consumed == []
  {
    if sequence.alphabet.size != |data.patternMask| {
      return Throws(IllegalArgument);
    }
    if count < 0 {
      return Throws(NegativeArraySize);
    }
    var it := new StateIterator(kind, data, sequence, count, from, to);
    return Ok(it);
  }
}
