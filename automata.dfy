/**
 * What the shift registers of the bitap cursors mean. For a mask table `masks` (one 64-bit
 * mismatch mask per code, bit `j` clear when the code is admitted at pattern position `j`) and the
 * codes `s` consumed so far, bit `j` of the register of level `d` is clear exactly when the first
 * `j + 1` pattern positions can be aligned to the end of `s` with at most `d` errors:
 *  - substitutions only: `Cost` counts the positions whose aligned code is not admitted, a
 *    position with no code left in `s` counting as an error;
 *  - substitutions, insertions and deletions: `Edit` is the edit distance of the pattern prefix
 *    to the best suffix of `s` (Sellers' recurrence for approximate matching).
 */
module Automata {
  import opened Bits

  /** Every code of `s` has a mask. */
  predicate AreCodes(masks: seq<Long>, s: seq<int>) {
    forall i :: 0 <= i < |s| ==> 0 <= s[i] < |masks|
  }

  /** Pattern position `j` admits `code`. */
  predicate Admits(masks: seq<Long>, code: int, j: int)
    requires 0 <= code < |masks| && 0 <= j < 64
  {
    !masks[code][j]
  }

  /** 0 when position `j` admits `code`, 1 otherwise. */
  function Miss(masks: seq<Long>, code: int, j: int): (r: nat)
    requires 0 <= code < |masks| && 0 <= j < 64
    ensures r <= 1
  {
    if Admits(masks, code, j) then 0 else 1
  }

  /** Errors of the ungapped alignment of pattern positions `0 .. p - 1` to the last `p` codes of
    * `s`; positions that run off the start of `s` are errors. */
  function Cost(masks: seq<Long>, s: seq<int>, p: nat): (r: nat)
    requires AreCodes(masks, s) && p <= 64
    ensures r <= p
  {
    if p == 0 then 0
    else if |s| == 0 then p
    else Cost(masks, s[..|s| - 1], p - 1) + Miss(masks, s[|s| - 1], p - 1)
  }

  function Min3(a: int, b: int, c: int): int {
    if a <= b && a <= c then a else if b <= c then b else c
  }

  /** Fewest substitutions, insertions and deletions turning pattern positions `0 .. p - 1` into
    * some suffix of `s` (a pattern position can be deleted, a code of `s` inserted). */
  function Edit(masks: seq<Long>, s: seq<int>, p: nat): (r: nat)
    requires AreCodes(masks, s) && p <= 64
    decreases |s|, p
  {
    if p == 0 then 0
    else if |s| == 0 then p
    else
      var prefix := s[..|s| - 1];
      Min3(Edit(masks, prefix, p - 1) + Miss(masks, s[|s| - 1], p - 1),
           Edit(masks, prefix, p) + 1,
           Edit(masks, s, p - 1) + 1)
  }

  /** Deleting the whole pattern prefix is always possible. */
  lemma {:induction false} EditAtMostLength(masks: seq<Long>, s: seq<int>, p: nat)
    requires AreCodes(masks, s) && p <= 64
    ensures Edit(masks, s, p) <= p
    decreases |s|, p
  {
    if p > 0 && |s| > 0 {
      EditAtMostLength(masks, s, p - 1);
    }
  }

  /** Gaps never hurt: the edit distance is at most the substitution-only distance. */
  lemma {:induction false} EditAtMostCost(masks: seq<Long>, s: seq<int>, p: nat)
    requires AreCodes(masks, s) && p <= 64
    ensures Edit(masks, s, p) <= Cost(masks, s, p)
    decreases |s|, p
  {
    if p > 0 && |s| > 0 {
      EditAtMostCost(masks, s[..|s| - 1], p - 1);
    }
  }

  /** Bit `j` of `r` is clear exactly when the first `j + 1` positions align with at most `d`
    * substitutions. */
  ghost predicate SubstitutionLevel(masks: seq<Long>, s: seq<int>, r: Long, d: int)
    requires AreCodes(masks, s)
  {
    forall j :: 0 <= j < 64 ==> (!r[j] <==> Cost(masks, s, j + 1) <= d)
  }

  /** Bit `j` of `r` is clear exactly when the first `j + 1` positions align with at most `d`
    * edits. */
  ghost predicate EditLevel(masks: seq<Long>, s: seq<int>, r: Long, d: int)
    requires AreCodes(masks, s)
  {
    forall j :: 0 <= j < 64 ==> (!r[j] <==> Edit(masks, s, j + 1) <= d)
  }

  /** The initial register of level `d`, Java's `~0L << d`, describes the empty input. */
  lemma InitialLevel(masks: seq<Long>, d: nat)
    requires d < 64
    ensures SubstitutionLevel(masks, [], OnesFrom(d), d)
    ensures EditLevel(masks, [], OnesFrom(d), d)
  {
    OnesFromBits(d);
  }

  /** Consuming `code` extends every alignment by one position. */
  lemma CostStep(masks: seq<Long>, s: seq<int>, code: int, p: nat)
    requires AreCodes(masks, s) && 0 <= code < |masks| && 1 <= p <= 64
    ensures AreCodes(masks, s + [code])
    ensures Cost(masks, s + [code], p) == Cost(masks, s, p - 1) + Miss(masks, code, p - 1)
  {
    assert (s + [code])[..|s|] == s;
  }

  lemma EditStep(masks: seq<Long>, s: seq<int>, code: int, p: nat)
    requires AreCodes(masks, s) && 0 <= code < |masks| && 1 <= p <= 64
    ensures AreCodes(masks, s + [code])
    ensures Edit(masks, s + [code], p)
            == Min3(Edit(masks, s, p - 1) + Miss(masks, code, p - 1),
                    Edit(masks, s, p) + 1,
                    Edit(masks, s + [code], p - 1) + 1)
  {
    var t := s + [code];
    assert t[..|t| - 1] == s && t[|t| - 1] == code;
  }

  /** Level 0 of every cursor: `R0 = (R0 << 1) | mask` keeps exactly the error-free alignments. */
  lemma {:induction false} ExactLevelStep(masks: seq<Long>, s: seq<int>, code: int, before: Long)
    requires AreCodes(masks, s) && 0 <= code < |masks|
    requires SubstitutionLevel(masks, s, before, 0)
    ensures AreCodes(masks, s + [code])
    ensures SubstitutionLevel(masks, s + [code], ExactCell(before, masks[code]), 0)
  {
    var after := Or(Shl1(before), masks[code]);
    OrBits(Shl1(before), masks[code]);
    Shl1Bits(before);
    forall j | 0 <= j < 64
      ensures !after[j] <==> Cost(masks, s + [code], j + 1) <= 0
    {
      CostStep(masks, s, code, j + 1);
      if j > 0 {
        assert !before[j - 1] <==> Cost(masks, s, j) <= 0;
      }
    }
  }

  /** The two recurrences agree at level 0: an error-free alignment has no gap. */
  lemma {:induction false} EditZeroIsCostZero(masks: seq<Long>, s: seq<int>, p: nat)
    requires AreCodes(masks, s) && p <= 64
    ensures Edit(masks, s, p) == 0 <==> Cost(masks, s, p) == 0
    decreases |s|, p
  {
    EditAtMostCost(masks, s, p);
    if p > 0 && |s| > 0 {
      EditZeroIsCostZero(masks, s[..|s| - 1], p - 1);
    }
  }

  /** Level 0 of the indel cursors is the same exact automaton, read as an edit distance of 0. */
  lemma {:induction false} EditLevelZeroStep(masks: seq<Long>, s: seq<int>, code: int, before: Long)
    requires AreCodes(masks, s) && 0 <= code < |masks|
    requires EditLevel(masks, s, before, 0)
    ensures AreCodes(masks, s + [code])
    ensures EditLevel(masks, s + [code], ExactCell(before, masks[code]), 0)
  {
    var after := Or(Shl1(before), masks[code]);
    OrBits(Shl1(before), masks[code]);
    Shl1Bits(before);
    forall j | 0 <= j < 64
      ensures !after[j] <==> Edit(masks, s + [code], j + 1) <= 0
    {
      EditStep(masks, s, code, j + 1);
      if j > 0 {
        assert !before[j - 1] <==> Edit(masks, s, j) <= 0;
      }
    }
  }

  /** Level `d >= 1` of the substitution cursor:
    * `R[d] = ((R[d] << 1) | mask) & (previous R[d - 1] << 1)`. */
  lemma {:induction false} SubstitutionLevelStep(masks: seq<Long>, s: seq<int>, code: int,
                                                 before: Long, beforeBelow: Long, d: int)
    requires AreCodes(masks, s) && 0 <= code < |masks| && 1 <= d
    requires SubstitutionLevel(masks, s, before, d)
    requires SubstitutionLevel(masks, s, beforeBelow, d - 1)
    ensures AreCodes(masks, s + [code])
    ensures SubstitutionLevel(masks, s + [code], SubstitutionCell(before, masks[code], beforeBelow), d)
  {
    var after := And(Or(Shl1(before), masks[code]), Shl1(beforeBelow));
    AndBits(Or(Shl1(before), masks[code]), Shl1(beforeBelow));
    OrBits(Shl1(before), masks[code]);
    Shl1Bits(before);
    Shl1Bits(beforeBelow);
    forall j | 0 <= j < 64
      ensures !after[j] <==> Cost(masks, s + [code], j + 1) <= d
    {
      CostStep(masks, s, code, j + 1);
      if j > 0 {
        assert !before[j - 1] <==> Cost(masks, s, j) <= d;
        assert !beforeBelow[j - 1] <==> Cost(masks, s, j) <= d - 1;
      }
    }
  }

  /** Level `d >= 1` of the indel cursors:
    * `R[d] = ((R[d] << 1) | mask) & R[d - 1] & (R[d - 1] << 1) & (new R[d - 1] << 1)`,
    * the previous `R[d - 1]` standing for an insertion, its shift for a substitution and the
    * shifted new `R[d - 1]` for a deletion. */
  lemma {:induction false} EditLevelStep(masks: seq<Long>, s: seq<int>, code: int,
                                         before: Long, beforeBelow: Long, afterBelow: Long, d: int)
    requires AreCodes(masks, s) && 0 <= code < |masks| && 1 <= d
    requires AreCodes(masks, s + [code])
    requires EditLevel(masks, s, before, d)
    requires EditLevel(masks, s, beforeBelow, d - 1)
    requires EditLevel(masks, s + [code], afterBelow, d - 1)
    ensures EditLevel(masks, s + [code], EditCell(before, masks[code], beforeBelow, afterBelow), d)
  {
    var after := And(Or(Shl1(before), masks[code]), And(And(beforeBelow, Shl1(beforeBelow)), Shl1(afterBelow)));
    AndBits(Or(Shl1(before), masks[code]), And(And(beforeBelow, Shl1(beforeBelow)), Shl1(afterBelow)));
    AndBits(And(beforeBelow, Shl1(beforeBelow)), Shl1(afterBelow));
    AndBits(beforeBelow, Shl1(beforeBelow));
    OrBits(Shl1(before), masks[code]);
    Shl1Bits(before);
    Shl1Bits(beforeBelow);
    Shl1Bits(afterBelow);
    forall j | 0 <= j < 64
      ensures !after[j] <==> Edit(masks, s + [code], j + 1) <= d
    {
      EditStep(masks, s, code, j + 1);
      assert !beforeBelow[j] <==> Edit(masks, s, j + 1) <= d - 1;
      if j > 0 {
        assert !before[j - 1] <==> Edit(masks, s, j) <= d;
        assert !beforeBelow[j - 1] <==> Edit(masks, s, j) <= d - 1;
        assert !afterBelow[j - 1] <==> Edit(masks, s + [code], j) <= d - 1;
      }
    }
  }

  /** Every register below level 64 holds exactly the substitution alignments of its level. */
  ghost predicate SubstitutionLevels(masks: seq<Long>, s: seq<int>, regs: seq<Long>)
    requires AreCodes(masks, s)
  {
    forall d :: 0 <= d < |regs| && d < 64 ==> SubstitutionLevel(masks, s, regs[d], d)
  }

  /** Every register below level 64 holds exactly the edit alignments of its level. */
  ghost predicate EditLevels(masks: seq<Long>, s: seq<int>, regs: seq<Long>)
    requires AreCodes(masks, s)
  {
    forall d :: 0 <= d < |regs| && d < 64 ==> EditLevel(masks, s, regs[d], d)
  }

  /** Level 0 of every cursor after reading a code whose mask is `mask`: `(R0 << 1) | mask`. */
  function ExactCell(cur: Long, mask: Long): Long {
    Or(Shl1(cur), mask)
  }

  /** Level `d >= 1` of the substitution cursor: `((R[d] << 1) | mask) & (previous R[d - 1] << 1)`. */
  function SubstitutionCell(cur: Long, mask: Long, below: Long): Long {
    And(Or(Shl1(cur), mask), Shl1(below))
  }

  /** Level `d >= 1` of the indel cursors:
    * `((R[d] << 1) | mask) & R[d - 1] & (R[d - 1] << 1) & (new R[d - 1] << 1)`. */
  function EditCell(cur: Long, mask: Long, below: Long, belowNew: Long): Long {
    And(Or(Shl1(cur), mask), And(And(below, Shl1(below)), Shl1(belowNew)))
  }

  /** `regs` are the first `|regs|` registers the substitution cursor computes from `prev` with
    * `mask`. */
  ghost predicate SubstitutionChain(prev: seq<Long>, mask: Long, regs: seq<Long>) {
    && 1 <= |regs| <= |prev|
    && regs[0] == ExactCell(prev[0], mask)
    && forall e :: 1 <= e < |regs| ==> regs[e] == SubstitutionCell(prev[e], mask, prev[e - 1])
  }

  /** `regs` are the first `|regs|` registers the indel cursors compute from `prev` with `mask`:
    * each level above 0 uses the new register of the level below. */
  ghost predicate EditChain(prev: seq<Long>, mask: Long, regs: seq<Long>) {
    && 1 <= |regs| <= |prev|
    && regs[0] == ExactCell(prev[0], mask)
    && forall e :: 1 <= e < |regs| ==> regs[e] == EditCell(prev[e], mask, prev[e - 1], regs[e - 1])
  }

  /** The substitution update keeps the registers' meaning: they describe the longer input. */
  lemma SubstitutionRegistersStep(masks: seq<Long>, s: seq<int>, code: int, prev: seq<Long>, next: seq<Long>)
    requires AreCodes(masks, s) && 0 <= code < |masks| && SubstitutionLevels(masks, s, prev)
    requires |next| == |prev| && SubstitutionChain(prev, masks[code], next)
    ensures AreCodes(masks, s + [code])
    ensures SubstitutionLevels(masks, s + [code], next)
  {
    assert AreCodes(masks, s + [code]) by {
      assert forall i :: 0 <= i < |s| ==> (s + [code])[i] == s[i];
    }
    forall d | 0 <= d < |prev| && d < 64
      ensures SubstitutionLevel(masks, s + [code], next[d], d)
    {
      if d == 0 {
        ExactLevelStep(masks, s, code, prev[0]);
      } else {
        SubstitutionLevelStep(masks, s, code, prev[d], prev[d - 1], d);
      }
    }
  }

  /** Level `d` of the indel update describes the longer input, given the levels below it do. */
  lemma {:induction false} EditChainLevel(masks: seq<Long>, s: seq<int>, code: int, prev: seq<Long>,
                                          next: seq<Long>, d: nat)
    requires AreCodes(masks, s) && 0 <= code < |masks| && EditLevels(masks, s, prev)
    requires EditChain(prev, masks[code], next) && d < |next| && d < 64
    ensures AreCodes(masks, s + [code])
    ensures EditLevel(masks, s + [code], next[d], d)
    decreases d
  {
    EditLevelZeroStep(masks, s, code, prev[0]);
    if d > 0 {
      EditChainLevel(masks, s, code, prev, next, d - 1);
      EditLevelStep(masks, s, code, prev[d], prev[d - 1], next[d - 1], d);
    }
  }

  /** The indel update keeps the registers' meaning: they describe the longer input. */
  lemma EditRegistersStep(masks: seq<Long>, s: seq<int>, code: int, prev: seq<Long>, next: seq<Long>)
    requires AreCodes(masks, s) && 0 <= code < |masks| && EditLevels(masks, s, prev)
    requires |next| == |prev| && EditChain(prev, masks[code], next)
    ensures AreCodes(masks, s + [code])
    ensures EditLevels(masks, s + [code], next)
  {
    assert AreCodes(masks, s + [code]) by {
      assert forall i :: 0 <= i < |s| ==> (s + [code])[i] == s[i];
    }
    forall d | 0 <= d < |prev| && d < 64
      ensures EditLevel(masks, s + [code], next[d], d)
    {
      EditChainLevel(masks, s, code, prev, next, d);
    }
  }
}
