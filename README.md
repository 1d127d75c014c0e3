# milib motif matcher, in Dafny

This project models the bit-parallel fuzzy motif matcher of milib, `com.milaboratory.core.motif`.
The matcher is Bitap, also called Shift-Or, with the Wu–Manber recurrences for substitutions and
for substitutions plus insertions and deletions. The project also models four small helpers around
it: nucleotide sequences, the short-sequence set and its 2-bit encoder, the FASTA writer's byte
layout, and the string helpers of `VersionInfo`.

Each Java part is modelled in the form its source takes.

- **Values and pure code.** Datatypes and functions model these: `Motif` (a code × position allow
  matrix), `BitapData` (the forward and reversed 64-bit mismatch masks), `BitapPattern`,
  `MotifWithExactMask`, `NucleotideSequence` and `VersionInfo`.
- **Classes.** Java's stateful objects are classes whose fields the methods update:
  - `StateIterator` holds the register array `R`, `current`, `symbolsProcessed`, `match` and
    `errors`;
  - `Matcher` is `BitapMatcherImpl`;
  - `MatcherFilter` holds the three-slot window arrays;
  - `ShortSequenceSet` holds its set of `long`s;
  - `FastaWriter` holds the bytes written so far.
- **Loops.** Java loops are `while` loops with invariants: mask compilation, `dataConsistent`,
  `toSecondary`, the per-level register updates, `findNext`, `getBitScore`, `toLong` and the
  `do`-`while` loop of `writeRaw`.
- **Integers.** A Java `long` is a 64-bit `seq<bool>` (`Bits.Long`, bit 0 least significant).
  Java's `<<` on a `long` shifts by the low six bits of its distance (`Bits.ShiftDistance`).
- **Exceptions.** An exception is an `Outcome` value, `Throws(...)`.

The main results are these.

- **Register meaning.**
  - A register of level `d` has bit `j` clear exactly when the first `j + 1` motif positions align
    to the end of the input with at most `d` errors. For the substitution cursors this counts
    substitutions (`Automata.Cost`). For the indel cursors it is the edit distance
    (`Automata.Edit`).
  - Every `nextState` keeps this meaning, and `match` and `errors` report the least such level
    (`StateIterators.StateIterator.NextState`).
- **Substitution hits.** Over the compiled masks, the automaton's error count is the number of
  disallowed positions in the window (`Oracles.SubstitutionOracle`). So on a hit of the
  substitution-only cursor over a non-empty motif, the `size` codes at `currentPosition()` hold
  exactly `errors` disallowed positions, and `errors` is within the budget
  (`BitapPatterns.SubstitutionHitWindow`).
- **Exact search.** For a non-empty motif, the exact matcher finds the first window at which
  `Motif.matches` holds (`BitapPatterns.ExactSearch`). For the empty motif, which fits everywhere,
  `exactSearch` returns -1, because the hit bit `1L << -1` is bit 63, which every compiled mask
  sets.
- **Matchers.**
  - `findNext` returns the main cursor's position at the first step at which both cursors report a
    hit, and -1 at the end.
  - The filter suppresses exactly the echo hits of its two rules.
- **Helpers.**
  - `toLong` computes a base-4 encoding that decodes back and is injective. So the set's
    `add`/`contains`/`size` behave as a set of sequences.
  - `writeRaw` cuts the sequence into the unique wrapped cut.

## Model

| member | source | states |
|---|---|---|
| Bits.Fill | src/main/java/com/milaboratory/core/motif/BitapStateIterator.java:22 | `Fill(b)` is 64 copies of `b`: `0L` and `~0L` |
| Bits.OrBits | src/main/java/com/milaboratory/core/motif/BitapStateIterator.java:53 | bit `j` of Java's bitwise or is set iff it is set in either operand |
| Bits.AndBits | src/main/java/com/milaboratory/core/motif/BitapStateIterator.java:55 | bit `j` of `a & b` is `a[j] && b[j]` |
| Bits.NotBits | src/main/java/com/milaboratory/core/motif/BitapData.java:31-32 | bit `j` of `~a` is `!a[j]` |
| Bits.Shl1Bits | src/main/java/com/milaboratory/core/motif/BitapStateIterator.java:52 | `a << 1` clears bit 0 and moves bit `j - 1` to `j` |
| Bits.ShiftDistance | src/main/java/com/milaboratory/core/motif/BitapStateIterator.java:51 | the distance a `long` shift uses is below 64, and is the distance itself when that is in `0..63` |
| Bits.OneAtBits | src/main/java/com/milaboratory/core/motif/BitapStateIterator.java:51 | `1L << n` has exactly bit `n mod 64` set |
| Bits.OnesFromBits | src/main/java/com/milaboratory/core/motif/BitapStateIterator.java:22 | `~0L << n` has exactly the bits from `n mod 64` up set |
| Bits.IsZeroBits | src/main/java/com/milaboratory/core/motif/BitapStateIterator.java:55 | a word is `0L` iff none of its bits is set |
| Bits.TestOneAt | src/main/java/com/milaboratory/core/motif/BitapStateIterator.java:55 | `0 == (x & (1L << n))` iff bit `n mod 64` of `x` is clear |
| Alphabets.Alphabet.Matching | src/main/java/com/milaboratory/core/motif/Motif.java:70-73 | the codes a letter's wildcard matches are at least one, and all are letters of the alphabet |
| Automata.Miss | src/main/java/com/milaboratory/core/motif/BitapStateIterator.java:53 | the mismatch of one position against one code is 0 or 1 |
| Automata.Cost | src/main/java/com/milaboratory/core/motif/BitapStateIterator.java:101-111 | the substitution count of `p` pattern positions is at most `p` |
| Automata.EditAtMostLength | src/main/java/com/milaboratory/core/motif/BitapStateIterator.java:146-159 | the edit distance of `p` pattern positions is at most `p` |
| Automata.EditAtMostCost | src/main/java/com/milaboratory/core/motif/BitapStateIterator.java:146-159 | the edit distance never exceeds the substitution count |
| Automata.InitialLevel | src/main/java/com/milaboratory/core/motif/BitapStateIterator.java:21-22 | register `~0L << d` describes level `d` over the empty input, for substitutions and for edits |
| Automata.CostStep | src/main/java/com/milaboratory/core/motif/BitapStateIterator.java:101-111 | one more code adds its last position's mismatch to the count of the shorter prefix |
| Automata.EditStep | src/main/java/com/milaboratory/core/motif/BitapStateIterator.java:146-159 | one more code gives the edit distance as the minimum of substitution, insertion and deletion |
| Automata.ExactLevelStep | src/main/java/com/milaboratory/core/motif/BitapStateIterator.java:52-53 | shifting `R0` left and or-ing in the mask keeps exactly the error-free alignments of the longer input |
| Automata.EditZeroIsCostZero | src/main/java/com/milaboratory/core/motif/BitapStateIterator.java:135-144 | the edit distance is 0 iff the substitution count is 0 |
| Automata.EditLevelZeroStep | src/main/java/com/milaboratory/core/motif/BitapStateIterator.java:135-139 | level 0 of the indel cursors keeps exactly the alignments of edit distance 0 |
| Automata.SubstitutionLevelStep | src/main/java/com/milaboratory/core/motif/BitapStateIterator.java:102-105 | shifting `R[d]`, or-ing in the mask and and-ing with the shifted old `R[d-1]` keeps exactly the alignments with at most `d` substitutions |
| Automata.EditLevelStep | src/main/java/com/milaboratory/core/motif/BitapStateIterator.java:147-151 | the Wu–Manber update of level `d` keeps exactly the alignments of edit distance at most `d` |
| Automata.SubstitutionRegistersStep | src/main/java/com/milaboratory/core/motif/BitapStateIterator.java:92-111 | the whole substitution update takes registers that describe `s` to registers that describe `s + [code]` |
| Automata.EditChainLevel | src/main/java/com/milaboratory/core/motif/BitapStateIterator.java:146-159 | each level of the indel update describes the longer input, given the levels below it do |
| Automata.EditRegistersStep | src/main/java/com/milaboratory/core/motif/BitapStateIterator.java:135-159 | the whole indel update takes registers that describe `s` to registers that describe `s + [code]` |
| Oracles.CostCountsMismatches | src/main/java/com/milaboratory/core/motif/Motif.java:131-142 | over the compiled masks, the substitution count of `p` positions is the number of disallowed positions of the last `p` codes |
| Oracles.CostOfShortInput | src/main/java/com/milaboratory/core/motif/BitapStateIterator.java:106 | a pattern prefix longer than the input costs at least the number of missing codes |
| Oracles.ExactOracle | src/main/java/com/milaboratory/core/motif/Motif.java:159-166 | the count for the whole motif is 0 iff the input is long enough and the motif fits its last window |
| Oracles.SubstitutionOracle | src/main/java/com/milaboratory/core/motif/BitapStateIterator.java:85-111 | with at least `size` codes read, the count is the number of disallowed positions of the last window |
| Motifs.Motif.Allows | src/main/java/com/milaboratory/core/motif/Motif.java:151-153 | `allows(code, position)` is bit `code * size + position` of the flat array, an index inside it |
| Motifs.Motif.Mismatches | src/main/java/com/milaboratory/core/motif/Motif.java:159-166 | a window's disallowed positions are at most its length |
| Motifs.MismatchesZero | src/main/java/com/milaboratory/core/motif/Motif.java:159-166 | a window has no disallowed position iff the motif fits it |
| Motifs.New | src/main/java/com/milaboratory/core/motif/Motif.java:51-59 | the private constructor succeeds iff every position allows a code and a basic letter; data with an empty position throws `IllegalArgumentException` |
| Motifs.DataConsistent | src/main/java/com/milaboratory/core/motif/Motif.java:188-197 | `dataConsistent` is true iff every position allows at least one code |
| Motifs.SetCell | src/main/java/com/milaboratory/core/motif/Motif.java:72 | setting one (code, position) bit admits that pair and changes no other |
| Motifs.NothingWritten | src/main/java/com/milaboratory/core/motif/Motif.java:68 | a fresh all-clear array has written no letter |
| Motifs.StartLetter | src/main/java/com/milaboratory/core/motif/Motif.java:69-70 | starting letter `i` keeps what letters before it wrote |
| Motifs.FinishLetter | src/main/java/com/milaboratory/core/motif/Motif.java:70-73 | finishing letter `i` has written all of its wildcard |
| Motifs.WriteCell | src/main/java/com/milaboratory/core/motif/Motif.java:71-72 | writing one more matching code of letter `i` extends what is written by that code |
| Motifs.FromSequence | src/main/java/com/milaboratory/core/motif/Motif.java:66-78 | `Motif(sequence)` has the sequence's size, and allows `c` at `i` iff `c` is in the wildcard of letter `i`; it passes the constructor's checks |
| Motifs.AllowedBasicCodes | src/main/java/com/milaboratory/core/motif/Motif.java:98-105 | `allowedBasicCodes(p)` is the number of basic letters allowed at `p`, between 0 and `basicSize` |
| Motifs.Or | src/main/java/com/milaboratory/core/motif/Motif.java:112-120 | different sizes throw `IllegalArgumentException`; otherwise the result allows a pair iff either operand does |
| Motifs.WiderKeepsBasic | src/main/java/com/milaboratory/core/motif/Motif.java:116-119 | a motif allowing more keeps a basic letter at every position |
| Motifs.UnionCells | src/main/java/com/milaboratory/core/motif/Motif.java:117-118 | the bitwise union of two arrays admits a pair iff either array does, and keeps every position allowed |
| Motifs.OrCommutes | src/main/java/com/milaboratory/core/motif/Motif.java:112-120 | `m.or(o)` and `o.or(m)` are the same motif |
| Motifs.Matches | src/main/java/com/milaboratory/core/motif/Motif.java:159-166 | `matches` throws `IndexOutOfBoundsException` iff the window leaves the sequence, and is otherwise true iff every position allows its code |
| Motifs.Equals | src/main/java/com/milaboratory/core/motif/Motif.java:168-178 | `equals` holds iff alphabet, size and data are equal |
| Motifs.ForwardMaskUpToBits | src/main/java/com/milaboratory/core/motif/Motif.java:136-142 | after `upTo` positions, forward bit `j` is clear iff `j < upTo` and `allows(code, j)` |
| Motifs.ReverseMaskUpToBits | src/main/java/com/milaboratory/core/motif/Motif.java:136-142 | after `upTo` positions, reversed bit `size - 1 - j` is clear iff `j < upTo` and `allows(code, j)` |
| Motifs.ForwardMask | src/main/java/com/milaboratory/core/motif/Motif.java:131-142 | forward bit `j` is clear iff `j < size` and `allows(code, j)`; bits from `size` up stay set |
| Motifs.ReverseMask | src/main/java/com/milaboratory/core/motif/Motif.java:131-142 | reversed bit `size - 1 - j` is clear iff `allows(code, j)`; bits from `size` up stay set |
| Motifs.BuildMasks | src/main/java/com/milaboratory/core/motif/Motif.java:131-142 | the mask loops produce one forward and one reversed mask per code, with the layout above |
| Motifs.CompileCode | src/main/java/com/milaboratory/core/motif/Motif.java:137-141 | the inner loop compiles the masks of one code and leaves every other code's masks unchanged |
| BitapDatas.New | src/main/java/com/milaboratory/core/motif/BitapData.java:12-19 | the constructor throws `IllegalArgumentException` iff the two mask arrays differ in length, and otherwise stores its arguments |
| BitapDatas.NarrowForwardBits | src/main/java/com/milaboratory/core/motif/BitapData.java:28-33 | forward bit `b` survives iff it is not a non-exact position below `upTo` |
| BitapDatas.NarrowReverseBits | src/main/java/com/milaboratory/core/motif/BitapData.java:28-33 | reversed bit `b` survives iff it is not `size - 1 - j` for a non-exact `j` below `upTo` |
| BitapDatas.Secondary | src/main/java/com/milaboratory/core/motif/BitapData.java:25-34 | the secondary data keeps the size, the number of masks and validity |
| BitapDatas.SecondaryBits | src/main/java/com/milaboratory/core/motif/BitapData.java:28-33 | a mismatch bit survives iff it is at an exact position or at or above `size`, forward and reversed |
| BitapDatas.SecondaryIdempotent | src/main/java/com/milaboratory/core/motif/BitapData.java:28-33 | narrowing twice with the same mask gives the same data as narrowing once |
| BitapDatas.ClearPosition | src/main/java/com/milaboratory/core/motif/BitapData.java:30-33 | the inner loop clears forward bit `j` and reversed bit `k` of every code's masks |
| BitapDatas.ToSecondary | src/main/java/com/milaboratory/core/motif/BitapData.java:21-35 | `toSecondary` throws `IllegalArgumentException` iff the mask length is not `size`, and otherwise returns the narrowed copy |
| MotifsWithExactMask.MotifWithExactMask.Size | src/main/java/com/milaboratory/core/motif/MotifWithExactMask.java:57-59 | `size()` is the length of both score arrays |
| MotifsWithExactMask.Count | src/main/java/com/milaboratory/core/motif/MotifWithExactMask.java:28 | the set-bit count of a mask is at most its length |
| MotifsWithExactMask.LengthPenaltyArgument | src/main/java/com/milaboratory/core/motif/MotifWithExactMask.java:28 | the logarithm's argument is at least 1, and is the size when no position is exact |
| MotifsWithExactMask.AllowedBasicBound | src/main/java/com/milaboratory/core/motif/Motif.java:98-105 | at most `basicSize` basic letters are allowed at a position |
| MotifsWithExactMask.SumShift | src/main/java/com/milaboratory/core/motif/MotifWithExactMask.java:29-33 | lowering every score by `d` lowers the sum by `n * d` |
| MotifsWithExactMask.DefaultScores | src/main/java/com/milaboratory/core/motif/MotifWithExactMask.java:25-26 | the first loop throws `IndexOutOfBoundsException` iff some position allows no basic letter; otherwise one score per position and their sum |
| MotifsWithExactMask.MismatchScores | src/main/java/com/milaboratory/core/motif/MotifWithExactMask.java:29-32 | each mismatch score is the match score less the penalty, and the penalties add up to `size * penalty` |
| MotifsWithExactMask.MeanOfEqual | src/main/java/com/milaboratory/core/motif/MotifWithExactMask.java:33 | the average of equal penalties is that penalty |
| MotifsWithExactMask.New | src/main/java/com/milaboratory/core/motif/MotifWithExactMask.java:18-34 | the constructor throws iff a position allows no basic letter; otherwise the scores are those its formulas give |
| MotifsWithExactMask.DefaultMatchBitScore | src/main/java/com/milaboratory/core/motif/MotifWithExactMask.java:36-38 | the default match score of a position is the cost entry of its number of allowed basic letters |
| MotifsWithExactMask.MatchBitScore | src/main/java/com/milaboratory/core/motif/MotifWithExactMask.java:40-47 | a basic code scores the default; a wildcard scores the cost of the wider of its breadth and the allowed basic letters |
| MotifsWithExactMask.MismatchBitScore | src/main/java/com/milaboratory/core/motif/MotifWithExactMask.java:49-51 | minus infinity at an exact position, the stored mismatch score elsewhere; a `null` mask throws `NullPointerException`, a position past the mask throws |
| MotifsWithExactMask.ExactMask | src/main/java/com/milaboratory/core/motif/MotifWithExactMask.java:65-67 | `getExactMask` returns a fresh array equal to the stored mask, and throws `NullPointerException` when there is none |
| MotifsWithExactMask.CaseMask | src/main/java/com/milaboratory/core/motif/MotifWithExactMask.java:82-84 | bit `i` of the mask is set iff character `i` of the string is upper case |
| MotifsWithExactMask.From | src/main/java/com/milaboratory/core/motif/MotifWithExactMask.java:78-86 | `from` throws `IllegalArgumentException` when the parsed size differs from the string length; otherwise the mask is the case mask |
| BitapPatterns.New | src/main/java/com/milaboratory/core/motif/BitapPattern.java:39-53 | the constructor stores the motif and main data; secondary data is present iff an exact mask is given, and is then `toSecondary` of the main data |
| BitapPatterns.ToBitapPattern | src/main/java/com/milaboratory/core/motif/Motif.java:128-145 | a motif of 64 or more positions yields `null`; otherwise a pattern over the compiled masks |
| BitapPatterns.GetBitapPattern | src/main/java/com/milaboratory/core/motif/Motif.java:122-126 | `getBitapPattern` throws iff the motif has 64 or more positions, and otherwise is the pattern without exact mask |
| BitapPatterns.ScoresDetermined | src/main/java/com/milaboratory/core/motif/MotifWithExactMask.java:18-34 | scores built from the same motif, mask and logarithm are equal |
| BitapPatterns.FromMotifWithExactMask | src/main/java/com/milaboratory/core/motif/MotifWithExactMask.java:74-76 | `toBitapPattern` forwards the stored exact mask to the motif's `toBitapPattern` |
| BitapPatterns.NoneSet | src/main/java/com/milaboratory/core/motif/BitapPattern.java:50-52 | an all-clear mask counts no exact position |
| BitapPatterns.Widest | src/main/java/com/milaboratory/core/motif/BitapPattern.java:97-99 | `max(wildcard breadth, allowedBasicCodes(j))` lies between 1 and `basicSize` |
| BitapPatterns.PositionScoreByCase | src/main/java/com/milaboratory/core/motif/BitapPattern.java:89-107 | an allowed basic code scores the match score, an allowed wildcard minus the cost of the wider set, and a disallowed code the mismatch score |
| BitapPatterns.ScoreCeiling | src/main/java/com/milaboratory/core/motif/Motif.java:90-96 | a window of allowed basic letters scores the motif's maximal bit score |
| BitapPatterns.ScoreBelowCeiling | src/main/java/com/milaboratory/core/motif/BitapPattern.java:89-107 | with non-negative costs and penalty, no window scores above the maximal bit score |
| BitapPatterns.MatcherWithoutIndels.BitScore | src/main/java/com/milaboratory/core/motif/BitapPattern.java:86-108 | `getBitScore` throws `IllegalStateException` unless the main cursor matched, and is otherwise the window score at the hit |
| BitapPatterns.MatcherWithoutIndels.BitScoreCost | src/main/java/com/milaboratory/core/motif/BitapPattern.java:111-113 | `getBitScoreCost` is the maximal bit score less the hit's bit score |
| BitapPatterns.ScoreWindow | src/main/java/com/milaboratory/core/motif/BitapPattern.java:89-107 | the loop throws iff the window leaves the sequence, and otherwise sums the contributions of the window |
| BitapPatterns.Contribution | src/main/java/com/milaboratory/core/motif/BitapPattern.java:91-105 | one turn of the loop adds the contribution of position `j` |
| BitapPatterns.ExactMatcher | src/main/java/com/milaboratory/core/motif/BitapPattern.java:116-121 | `exactMatcher` is one exact cursor over the main data and the range, with no secondary cursor; a foreign alphabet throws |
| BitapPatterns.SubstitutionOnlyMatcherFirst | src/main/java/com/milaboratory/core/motif/BitapPattern.java:151-157 | a foreign alphabet throws `IllegalArgumentException`, then a budget below -1 `NegativeArraySizeException`; otherwise a substitution cursor with `maxSubstitutions + 1` registers (none for -1), paired with an exact cursor over the secondary data iff there is an exact mask |
| BitapPatterns.SubstitutionAndIndelMatcherLast | src/main/java/com/milaboratory/core/motif/BitapPattern.java:185-192 | throws `IllegalStateException` when there is an exact mask; otherwise `IllegalArgumentException` for a foreign alphabet, `NegativeArraySizeException` for a budget below -1, or a forward indel cursor with `maxNumberOfErrors + 1` registers over the range |
| BitapPatterns.SubstitutionAndIndelMatcherFirst | src/main/java/com/milaboratory/core/motif/BitapPattern.java:219-225 | throws `IllegalStateException` when there is an exact mask; otherwise `IllegalArgumentException` for a foreign alphabet, `NegativeArraySizeException` for a budget below -1, or a backward indel cursor with `maxNumberOfErrors + 1` registers over the reversed masks |
| BitapPatterns.FirstOccurrenceIsFirst | src/main/java/com/milaboratory/core/motif/Motif.java:159-166 | the naive scan is -1 iff no window of the range fits, and otherwise the least window that fits |
| BitapPatterns.FirstOccurrenceUnique | src/main/java/com/milaboratory/core/motif/Motif.java:159-166 | any answer with that property is the naive scan's |
| BitapPatterns.ScanWindows | src/main/java/com/milaboratory/core/motif/BitapStateIterator.java:50-55 | the exact automaton accepts a prefix of the scan iff the motif fits the window ending there |
| BitapPatterns.ExactScanFindsFirst | src/main/java/com/milaboratory/core/motif/BitapMatcherImpl.java:31-42 | a scan that stops at its first acceptance, or at the end, has found the first occurrence |
| BitapPatterns.ExactAccepts | src/main/java/com/milaboratory/core/motif/BitapStateIterator.java:55 | the exact cursor accepts iff the whole motif has no mismatch |
| BitapPatterns.SubstitutionHitWindow | src/main/java/com/milaboratory/core/motif/BitapStateIterator.java:73-120 | on a hit of the substitution-only cursor over a non-empty motif, the `size` codes from `currentPosition()` lie in the sequence and hold exactly `errors` disallowed positions, with `errors` below the number of registers |
| BitapPatterns.CursorHitWindow | src/main/java/com/milaboratory/core/motif/BitapStateIterator.java:73-120 | the same for one cursor whose `match` flag the automaton stands behind |
| BitapPatterns.EmptyMotifRejects | src/main/java/com/milaboratory/core/motif/BitapStateIterator.java:50-55 | over an empty motif the exact cursor tests bit 63, which every compiled mask sets, so it accepts no input |
| BitapPatterns.ExactSearch | src/main/java/com/milaboratory/core/motif/BitapPattern.java:68-70 | over a range inside the sequence, `exactSearch(sequence, from, to)` does not throw; for a non-empty motif it is the first position in the range at which the motif fits, or -1; for the empty motif it is -1 |
| BitapPatterns.ExactMatcherFindsFirst | src/main/java/com/milaboratory/core/motif/BitapPattern.java:68-70 | the exact matcher's first `findNext` is the naive scan's answer |
| BitapPatterns.ExactSearchFrom | src/main/java/com/milaboratory/core/motif/BitapPattern.java:64-66 | `exactSearch(sequence, from)` searches up to the end of the sequence: the first occurrence for a non-empty motif, -1 for the empty one |
| BitapPatterns.ExactSearchAll | src/main/java/com/milaboratory/core/motif/BitapPattern.java:60-62 | `exactSearch(sequence)` is the first occurrence in the whole sequence for a non-empty motif, and -1 for the empty one |
| StateIterators.LeastHitGrow | src/main/java/com/milaboratory/core/motif/BitapStateIterator.java:106-109 | testing levels in order keeps `errors` on the least level that reports |
| StateIterators.LeastReportingLevel | src/main/java/com/milaboratory/core/motif/BitapStateIterator.java:96-110 | a hit is reported iff the distance is below the number of registers and is 0 or the guard holds, and then `errors` is the distance |
| StateIterators.StateIterator.CurrentPosition | src/main/java/com/milaboratory/core/motif/BitapStateIterator.java:61-215 | `currentPosition()` is the first position of the last `size` codes read for the forward cursors without indels, and the position of the last code read for the indel cursors |
| StateIterators.StateIterator.TrackAppend | src/main/java/com/milaboratory/core/motif/BitapStateIterator.java:179 | reading the code at `current` extends the consumed run by that code |
| StateIterators.StateIterator.constructor | src/main/java/com/milaboratory/core/motif/BitapStateIterator.java:15-25 | `count` registers with `R[i] = ~0L << i`, reading from `from`, with nothing consumed |
| StateIterators.StateIterator.NextState | src/main/java/com/milaboratory/core/motif/BitapStateIterator.java:42-59 | false iff at the end, with `match` false and nothing changed; otherwise a code out of range, or a cursor without registers, throws; otherwise one code is read, `current` moves one step and `match`/`errors` report the least level |
| StateIterators.StateIterator.ExactStep | src/main/java/com/milaboratory/core/motif/BitapStateIterator.java:50-58 | the exact step reads the code at `current`, throwing when it is out of range |
| StateIterators.StateIterator.ExactUpdate | src/main/java/com/milaboratory/core/motif/BitapStateIterator.java:53-55 | `R0` or-ed with the mask, and `match` iff bit `size - 1` is clear |
| StateIterators.StateIterator.SubstitutionStep | src/main/java/com/milaboratory/core/motif/BitapStateIterator.java:73-114 | the substitution step reads one code and reports the least level with at most that many substitutions |
| StateIterators.StateIterator.SubstitutionUpdate | src/main/java/com/milaboratory/core/motif/BitapStateIterator.java:92-111 | the registers become the substitution chain of the old ones, and `errors` is the least reporting level |
| StateIterators.StateIterator.SubstitutionUpdateLevel | src/main/java/com/milaboratory/core/motif/BitapStateIterator.java:102-110 | one turn of the level loop updates `R[d]` alone and passes `preMismatchTmp` on |
| StateIterators.StateIterator.IndelStep | src/main/java/com/milaboratory/core/motif/BitapStateIterator.java:169-182 | the indel step counts the symbol, reads one code and moves `current` forward or backward |
| StateIterators.StateIterator.UpdateState | src/main/java/com/milaboratory/core/motif/BitapStateIterator.java:128-160 | `updateState` makes the registers the edit chain of the old ones, and `errors` is the least reporting level |
| StateIterators.StateIterator.IndelUpdateLevel | src/main/java/com/milaboratory/core/motif/BitapStateIterator.java:147-158 | one turn of the level loop updates `R[d]` alone and passes the three temporaries on |
| StateIterators.StateIterator.Settle | src/main/java/com/milaboratory/core/motif/BitapStateIterator.java:92-111 | after an update the registers describe the longer input, and `match`/`errors` are the automaton's |
| StateIterators.StateIterator.LevelTest | src/main/java/com/milaboratory/core/motif/BitapStateIterator.java:55 | the hit test of level `d` passes iff the distance is at most `d` |
| StateIterators.StateIterator.Conclude | src/main/java/com/milaboratory/core/motif/BitapStateIterator.java:96-110 | the least reporting level read off the registers is the automaton's distance |
| StateIterators.Create | src/main/java/com/milaboratory/core/motif/BitapStateIterator.java:15-25 | construction throws `IllegalArgumentException` iff the alphabet size differs from the number of masks, and otherwise `NegativeArraySizeException` iff `count` is negative |
| Matchers.PrefixesGrow | src/main/java/com/milaboratory/core/motif/BitapMatcherImpl.java:32 | reading one more code keeps every earlier prefix |
| Matchers.Matcher.constructor | src/main/java/com/milaboratory/core/motif/BitapMatcherImpl.java:22-29 | the matcher holds the main cursor and the secondary one, `null` for the one-argument form |
| Matchers.Matcher.Advance | src/main/java/com/milaboratory/core/motif/BitapMatcherImpl.java:32-36 | one turn steps the main cursor and, in lockstep, the secondary cursor |
| Matchers.Matcher.Turn | src/main/java/com/milaboratory/core/motif/BitapMatcherImpl.java:32-39 | after one turn without a hit, every prefix read since the call is rejected |
| Matchers.Matcher.FindNext | src/main/java/com/milaboratory/core/motif/BitapMatcherImpl.java:31-42 | the main position at the first step where both cursors report a hit, or -1 at the end; no earlier prefix is accepted; a main cursor without registers throws iff it is not already at the end |
| Matchers.Matcher.NumberOfErrors | src/main/java/com/milaboratory/core/motif/BitapMatcherImpl.java:44-46 | after a hit, the main cursor's distance over the codes read |
| MatcherFilters.NestedMatcher.constructor | src/main/java/com/milaboratory/core/motif/BitapMatcherFilter.java:29-30 | the nested matcher starts before its first report |
| MatcherFilters.NestedMatcher.FindNext | src/main/java/com/milaboratory/core/motif/BitapMatcherFilter.java:60 | the nested matcher returns its reports in order, then -1 |
| MatcherFilters.EchoDropsWorse | src/main/java/com/milaboratory/core/motif/BitapMatcherFilter.java:84-92 | of two adjacent reports one error apart, the worse one is an echo |
| MatcherFilters.IsolatedKept | src/main/java/com/milaboratory/core/motif/BitapMatcherFilter.java:84-94 | a report with no adjacent neighbour one error better is never suppressed |
| MatcherFilters.NoEchoPastEnd | src/main/java/com/milaboratory/core/motif/BitapMatcherFilter.java:61-63 | past the last report the window holds -1 and nothing is suppressed |
| MatcherFilters.MatcherFilter.constructor | src/main/java/com/milaboratory/core/motif/BitapMatcherFilter.java:29-48 | every slot -1 (or `NaN`), then one `next()` pulls the first report into slot 2 |
| MatcherFilters.MatcherFilter.Shift | src/main/java/com/milaboratory/core/motif/BitapMatcherFilter.java:51-58 | slot 1 moves to slot 0 and slot 2 to slot 1, in every buffer |
| MatcherFilters.MatcherFilter.Store | src/main/java/com/milaboratory/core/motif/BitapMatcherFilter.java:60-76 | slot 2 takes the fetched position, errors and scores |
| MatcherFilters.MatcherFilter.Next | src/main/java/com/milaboratory/core/motif/BitapMatcherFilter.java:50-77 | the window moves one report on |
| MatcherFilters.MatcherFilter.FindNext | src/main/java/com/milaboratory/core/motif/BitapMatcherFilter.java:80-96 | returns the next report that is not an echo, skipping exactly the echoes between; -1 once the reports are exhausted |
| MatcherFilters.MatcherFilter.NumberOfErrors | src/main/java/com/milaboratory/core/motif/BitapMatcherFilter.java:99-101 | the error count of the returned report |
| MatcherFilters.MatcherFilter.BitScore | src/main/java/com/milaboratory/core/motif/BitapMatcherFilter.java:104-108 | throws `IllegalStateException` iff the nested matcher has no scores; otherwise the returned report's score |
| MatcherFilters.MatcherFilter.BitScoreCost | src/main/java/com/milaboratory/core/motif/BitapMatcherFilter.java:111-115 | throws `IllegalStateException` iff the nested matcher has no scores; otherwise the returned report's score cost |
| Nucleotides.ReverseComplement | src/main/java/com/milaboratory/core/sequence/NucleotideSequence.java:235-243 | the reverse complement has the input's length |
| Nucleotides.ReverseComplementIndex | src/main/java/com/milaboratory/core/sequence/NucleotideSequence.java:238-241 | letter `k` is the complement of letter `size - 1 - k` |
| Nucleotides.ReverseComplementAt | src/main/java/com/milaboratory/core/sequence/NucleotideSequence.java:238-241 | the same for every letter at once |
| Nucleotides.ReverseComplementAppend | src/main/java/com/milaboratory/core/sequence/NucleotideSequence.java:235-243 | the reverse complement of `a + b` is that of `b` followed by that of `a` |
| Nucleotides.ReverseComplementTwice | src/main/java/com/milaboratory/core/sequence/NucleotideSequence.java:189-192 | with a self-inverse complement, taking it twice gives the sequence back |
| Nucleotides.OneLetter | src/main/java/com/milaboratory/core/sequence/NucleotideSequence.java:123-127 | the cached one-letter sequence exists for codes 0 to 14 and holds that code; other codes throw |
| Nucleotides.TransformToRC | src/main/java/com/milaboratory/core/sequence/NucleotideSequence.java:235-243 | `transformToRC` returns the reverse complement of `data[from..to]` |
| Nucleotides.GetRange | src/main/java/com/milaboratory/core/sequence/NucleotideSequence.java:164-182 | a bound outside the sequence throws; otherwise the slice, or its reverse complement for a reversed range |
| Nucleotides.GetReverseComplement | src/main/java/com/milaboratory/core/sequence/NucleotideSequence.java:189-192 | the reverse complement of the whole sequence, of the same length |
| Nucleotides.IsWildcard | src/main/java/com/milaboratory/core/sequence/NucleotideSequence.java:245-247 | a code from 4 up is a wildcard, so a non-negative code that is not one is a basic letter below 4 |
| Nucleotides.ContainsWildcardsIn | src/main/java/com/milaboratory/core/sequence/NucleotideSequence.java:199-204 | true iff a code of `[from, to)` is a wildcard before any read leaves the sequence; false iff the range is empty or all in range without wildcards |
| Nucleotides.ContainsWildcards | src/main/java/com/milaboratory/core/sequence/NucleotideSequence.java:211-213 | true iff some code is 4 or above |
| Nucleotides.RegionEquals | src/main/java/com/milaboratory/core/sequence/NucleotideSequence.java:250-258 | false when `seq2` is too short; otherwise, in range, true iff the two regions are equal |
| Nucleotides.CharCode | src/main/java/com/milaboratory/core/sequence/NucleotideSequence.java:231 | the `(char)` cast of a byte is its value modulo 2^16 |
| Nucleotides.FromSequence | src/main/java/com/milaboratory/core/sequence/NucleotideSequence.java:228-233 | a negative length throws; otherwise exactly `length` codes, each the symbol code of its character |
| ShortSequenceSets.Pow2Twice | src/main/java/com/milaboratory/core/sequence/ShortSequenceSet.java:42 | shifting by `2n` bits multiplies by `4^n` |
| ShortSequenceSets.Pow4Grows | src/main/java/com/milaboratory/core/sequence/ShortSequenceSet.java:40-44 | powers of four grow with the exponent |
| ShortSequenceSets.OrLowBits | src/main/java/com/milaboratory/core/sequence/ShortSequenceSet.java:43 | ORing a code below 4 into a value with clear low bits adds it |
| ShortSequenceSets.OrHighBits | src/main/java/com/milaboratory/core/sequence/ShortSequenceSet.java:45 | ORing the length above the digits adds it |
| ShortSequenceSets.Digits | src/main/java/com/milaboratory/core/sequence/ShortSequenceSet.java:40-44 | the base-4 digits of `n` letters stay below `4^n` |
| ShortSequenceSets.UndigitsDigits | src/main/java/com/milaboratory/core/sequence/ShortSequenceSet.java:40-44 | the digits spell the letters back out |
| ShortSequenceSets.DecodeEncode | src/main/java/com/milaboratory/core/sequence/ShortSequenceSet.java:40-46 | every stored value decodes to the sequence it came from |
| ShortSequenceSets.EncodeInjective | src/main/java/com/milaboratory/core/sequence/ShortSequenceSet.java:40-46 | two accepted sequences with the same value are equal |
| ShortSequenceSets.EncodeBound | src/main/java/com/milaboratory/core/sequence/ShortSequenceSet.java:45 | a stored value fits a non-negative `long` |
| ShortSequenceSets.ShiftDigits | src/main/java/com/milaboratory/core/sequence/ShortSequenceSet.java:42 | `ret <<= 2` loses no bit of at most 28 letters |
| ShortSequenceSets.PackStep | src/main/java/com/milaboratory/core/sequence/ShortSequenceSet.java:42-43 | one turn of the loop appends one base-4 digit |
| ShortSequenceSets.ToLong | src/main/java/com/milaboratory/core/sequence/ShortSequenceSet.java:35-47 | throws `IllegalArgumentException` iff longer than 29 or holding a wildcard; otherwise the digits with the length at bit 58 |
| ShortSequenceSets.EncodableWhenAccepted | src/main/java/com/milaboratory/core/sequence/ShortSequenceSet.java:36-39 | a valid sequence is encodable iff it is at most 29 letters without wildcards |
| ShortSequenceSets.ImageInsert | src/main/java/com/milaboratory/core/sequence/ShortSequenceSet.java:10-12 | adding a member with an unshared value adds that value, new iff the member is |
| ShortSequenceSets.ShortSequenceSet.constructor | src/main/java/com/milaboratory/core/sequence/ShortSequenceSet.java:8 | a new set is empty |
| ShortSequenceSets.ShortSequenceSet.Add | src/main/java/com/milaboratory/core/sequence/ShortSequenceSet.java:10-12 | throws as `toLong` does; otherwise adds the sequence and is true iff it was new |
| ShortSequenceSets.ShortSequenceSet.Contains | src/main/java/com/milaboratory/core/sequence/ShortSequenceSet.java:14-16 | false at once for a wildcard sequence; throws for one too long; otherwise true iff added |
| ShortSequenceSets.ShortSequenceSet.Size | src/main/java/com/milaboratory/core/sequence/ShortSequenceSet.java:18-20 | the number of distinct sequences added |
| ShortSequenceSets.AddThenContains | src/main/java/com/milaboratory/core/sequence/ShortSequenceSet.java:10-16 | a sequence `add` accepted is then found by `contains` |
| FastaWriters.Chunks | src/main/java/com/milaboratory/core/io/sequence/fasta/FastaWriter.java:101-106 | the sequence is cut into at least one line |
| FastaWriters.BodyLines | src/main/java/com/milaboratory/core/io/sequence/fasta/FastaWriter.java:100-106 | what the loop writes from `pointer` on is the lines of the rest, each with a line break |
| FastaWriters.BodyIsChunks | src/main/java/com/milaboratory/core/io/sequence/fasta/FastaWriter.java:100-106 | the sequence part is its lines, each followed by `'\n'` |
| FastaWriters.WriteStep | src/main/java/com/milaboratory/core/io/sequence/fasta/FastaWriter.java:102-105 | one turn writes the next line and a line break and moves `pointer` on by `maxLength` |
| FastaWriters.ChunksFlatten | src/main/java/com/milaboratory/core/io/sequence/fasta/FastaWriter.java:100-106 | the lines put together are the sequence |
| FastaWriters.ChunksWrapped | src/main/java/com/milaboratory/core/io/sequence/fasta/FastaWriter.java:103-104 | every line has at most `maxLength` bytes and all but the last exactly `maxLength` |
| FastaWriters.ChunksCount | src/main/java/com/milaboratory/core/io/sequence/fasta/FastaWriter.java:101-106 | one line for an empty sequence, otherwise `ceil(len / maxLength)` lines |
| FastaWriters.WrappedUnique | src/main/java/com/milaboratory/core/io/sequence/fasta/FastaWriter.java:100-106 | any wrapped cut of the sequence is the writer's cut |
| FastaWriters.FastaWriter.Default | src/main/java/com/milaboratory/core/io/sequence/fasta/FastaWriter.java:28 | writers built without a line length use 75 |
| FastaWriters.FastaWriter.constructor | src/main/java/com/milaboratory/core/io/sequence/fasta/FastaWriter.java:76-79 | a writer with an explicit line length starts with nothing written |
| FastaWriters.FastaWriter.WriteRaw | src/main/java/com/milaboratory/core/io/sequence/fasta/FastaWriter.java:93-110 | appends `'>'`, the description (none when `null`), `'\n'`, then the wrapped lines |
| FastaWriters.FastaWriter.WriteLines | src/main/java/com/milaboratory/core/io/sequence/fasta/FastaWriter.java:100-106 | the `do`-`while` loop appends the sequence's lines |
| VersionInfos.Equals | src/main/java/com/milaboratory/util/VersionInfo.java:81-93 | `equals` holds iff the other object is a description with all seven fields equal |
| VersionInfos.EqualsSymmetric | src/main/java/com/milaboratory/util/VersionInfo.java:81-93 | `equals` is symmetric |
| VersionInfos.Longest | src/main/java/com/milaboratory/util/VersionInfo.java:117-126 | a `null` argument yields the other; otherwise the strictly longer string, ties going to `s2` |
| VersionInfos.ClassName | src/main/java/com/milaboratory/util/VersionInfo.java:128-139 | `milib`, `mixcr` and `repseqio` map to their classes, any other name to itself; `null` throws |
| VersionInfos.ResourceName | src/main/java/com/milaboratory/util/VersionInfo.java:114 | the resource name is the artifact between `/` and `-build.properties` |
| VersionInfos.ArtifactOfResourceName | src/main/java/com/milaboratory/util/VersionInfo.java:114 | the resource name gives its artifact back |
| VersionInfos.ArtifactSource | src/main/java/com/milaboratory/util/VersionInfo.java:113-115 | the class name and resource of an artifact; a `null` artifact throws |
| VersionInfos.FromProperties | src/main/java/com/milaboratory/util/VersionInfo.java:141-155 | `production` iff the property is `"true"`; the timestamp is parsed, and a missing or bad one throws |

## Left out

- Floating point: the cost table and the logarithm are inputs (`Alphabet.cost`, a `log` function
  parameter). Scores are `real`s, with `None` for `NaN`. `BitScoreCalculator` is not part of this
  model.
- Motif.calculateMaxBitScore: stated as `BitapPatterns.MaxBitScore` over the same cost table.
  `getBitScoreCost` takes that value as the parameter `matchBitScore`.
- MotifsWithExactMask: `getMismatchBitScoreCost` is not modelled. It is one subtraction of two
  values that are already modelled.
- BitapPatterns.GetBitapPattern: computes the pattern on demand. The Java field that caches it, and
  `Serializable`, are out.
- The whole-sequence overloads of the three fuzzy matcher factories are out. They only pass
  `0, size()` to the modelled ones, as `ExactSearchAll` does for `exactSearch`.
- Java `int` overflow is not modelled. Examples are `from2 + to1 - from1` in `equals`,
  `pointer += maxLength` in `writeRaw`, and `current++` at the end of the `int` range. Integers are
  unbounded here.
- MatcherFilters.NestedMatcher: the matcher under the filter is modelled by the sequence of reports
  its calls return, not as a cursor pair.
- StateIterators.StateIterator.NextState: after a step has thrown, the cursor's further behaviour
  is not specified (`failed` is set).
- Matchers.Matcher.FindNext: when the main cursor's codes leave the sequence, the result is only
  `IndexOutOfBoundsException`. Where the exception is raised relative to the secondary cursor is not
  modelled.
- The ordering promised by the factories' doc comments (ascending or descending positions) is not
  stated as its own lemma. It follows from `current` moving one step in one direction per
  `nextState`.
- MotifsWithExactMask.CaseMask: `Character.isUpperCase` is modelled on ASCII letters only.
- MotifsWithExactMask.From: the parser from string to motif, `alphabet.parse`, is not part of this
  model. The parsed motif is an input.
- `hashCode`, `toString`, the Jackson and `Serializable` annotations, and `BitArray`'s internals are
  out. `BitArray` is `seq<bool>`.
- `NucleotideAlphabet.complementCode` and `symbolToCode` are not part of this model. They are passed
  in as functions.
- Nucleotides.GetRange: the forward case returns the slice that `super.getRange` is taken to return.
  Whether the result is the cached object or a copy (`EMPTY`, the one-letter sequences) is not
  modelled.
- Nucleotides.FromSequence: a negative `length` throws `NegativeArraySizeException`; reads outside
  the array throw `IndexOutOfBoundsException`. Partially filled storage is not observable and is not
  modelled.
- ShortSequenceSets.ToLong: for a sequence that is not a valid nucleotide sequence (codes outside
  0..14) the contract says only when it throws, not what it computes.
- `ShortSequenceSet.equals` and `hashCode` are out. The Trove `TLongHashSet` is modelled as a Dafny
  set of naturals.
- FastaWriter I/O: the stream, `flush`, `close`, `synchronized`, and the charset of `getBytes` are
  out. So are `write(FastaRecord)` and `write(description, sequence)`, which pass
  `toString().getBytes()` to `writeRaw`. Bytes are given directly.
- FastaWriters.FastaWriter.WriteRaw: requires `maxLength > 0`. With 0 the Java loop never ends for a
  non-empty sequence, and a negative length throws from the stream.
- VersionInfo: classloader resource loading, which gives `null` on failure, and the `Properties`
  reader are I/O. A property map is the input. `Long.parseLong` is a function parameter. The `Date`
  is its value in milliseconds.
- VersionInfos.Equals: assumes the other object, when not `null`, is a `VersionInfo`. The
  `getClass()` test against other classes is not modelled.
- BlastDB, the build script, and the holder and interface classes around the core are not part of
  this model.
