/**
 * The link between the compiled masks of a motif and the motif itself: over masks built by
 * `toBitapPattern`, the substitution automaton's error count for the last `size` codes is the
 * number of positions of that window the motif does not admit, so the exact cursor reports a hit
 * exactly where `Motif.matches` holds.
 */
module Oracles {
  import opened Bits
  import opened Alphabets
  import opened Automata
  import opened Motifs

  /** `masks` is the forward mask table `toBitapPattern` builds for `m`. */
  predicate CompiledFrom(m: Motif, masks: seq<Long>)
    requires m.Valid() && m.size < 64
  {
    |masks| == m.alphabet.size && forall c :: 0 <= c < |masks| ==> masks[c] == ForwardMask(m, c)
  }

  /** Aligned to the last `p` codes of `s`, the first `p` positions of the motif miss exactly as
    * often as the motif's own count says. */
  lemma {:induction false} CostCountsMismatches(m: Motif, masks: seq<Long>, s: seq<int>, p: nat)
    requires m.Valid() && m.size < 64 && CompiledFrom(m, masks) && m.alphabet.AreCodes(s)
    requires p <= m.size && p <= |s|
    ensures AreCodes(masks, s)
    ensures Cost(masks, s, p) == m.Mismatches(s[|s| - p..])
  {
    if p > 0 {
      var prefix := s[..|s| - 1];
      var w := s[|s| - p..];
      assert m.alphabet.AreCodes(prefix);
      CostCountsMismatches(m, masks, prefix, p - 1);
      assert w[..p - 1] == prefix[|prefix| - (p - 1)..];
      assert w[p - 1] == s[|s| - 1];
    }
  }

  /** A pattern prefix longer than the input runs off its start at least once per missing code. */
  lemma {:induction false} CostOfShortInput(masks: seq<Long>, s: seq<int>, p: nat)
    requires AreCodes(masks, s) && |s| < p <= 64
    ensures Cost(masks, s, p) >= p - |s|
  {
    if |s| > 0 {
      CostOfShortInput(masks, s[..|s| - 1], p - 1);
    }
  }

  /** The whole motif aligns to the end of `s` without error exactly when `s` is at least as long
    * as the motif and its last `size` codes fit the motif. */
  lemma ExactOracle(m: Motif, masks: seq<Long>, s: seq<int>)
    requires m.Valid() && 1 <= m.size < 64 && CompiledFrom(m, masks) && m.alphabet.AreCodes(s)
    ensures AreCodes(masks, s)
    ensures Cost(masks, s, m.size) == 0 <==> |s| >= m.size && m.Fits(s[|s| - m.size..])
  {
    assert AreCodes(masks, s);
    if |s| >= m.size {
      CostCountsMismatches(m, masks, s, m.size);
      MismatchesZero(m, s[|s| - m.size..]);
    } else {
      CostOfShortInput(masks, s, m.size);
    }
  }

  /** With at least `size` codes consumed, the substitution automaton's error count for the whole
    * motif is the number of disallowed positions of the last window. */
  lemma SubstitutionOracle(m: Motif, masks: seq<Long>, s: seq<int>)
    requires m.Valid() && 1 <= m.size < 64 && CompiledFrom(m, masks) && m.alphabet.AreCodes(s)
    requires |s| >= m.size
    ensures AreCodes(masks, s)
    ensures Cost(masks, s, m.size) == m.Mismatches(s[|s| - m.size..])
  {
    CostCountsMismatches(m, masks, s, m.size);
  }
}
