/**
 * The sequence types the matcher works over, described only as far as the matcher uses them:
 * an alphabet of `size` codes whose first `basicSize` codes are the basic letters, each code
 * standing for a wildcard that matches a set of codes, and a per-alphabet cost table.
 */
module Alphabets {
  /** The codes a letter matches, and how many of them are basic letters. */
  datatype Wildcard = Wildcard(codes: seq<int>, basicSize: nat)

  /**
   * `cost[i - 1]` is the bit-score cost of a position that admits `i` basic letters; its values
   * come from logarithms and are not modelled.
   */
  datatype Alphabet = Alphabet(size: nat, basicSize: nat, wildcards: seq<Wildcard>, cost: seq<real>)
  {
    /** Every code has a wildcard; every wildcard expands to at least one basic letter and its
      * breadth lies between one and all basic letters; the cost table has one entry per basic
      * letter. */
    predicate Valid() {
      && 1 <= basicSize <= size
      && |wildcards| == size
      && |cost| == basicSize
      && (forall c :: 0 <= c < size ==> 1 <= wildcards[c].basicSize <= basicSize)
      && (forall c :: 0 <= c < size ==> |wildcards[c].codes| >= 1)
      && (forall c, k :: 0 <= c < size && 0 <= k < |wildcards[c].codes| ==> 0 <= wildcards[c].codes[k] < basicSize)
    }

    /** `code` is a letter of this alphabet. */
    predicate IsCode(code: int) { 0 <= code < size }

    /** The codes are all letters of this alphabet. */
    predicate AreCodes(s: seq<int>) { forall i :: 0 <= i < |s| ==> IsCode(s[i]) }

    /** Java's `codeToWildcard(code).getMatchingCode(k)` ranges over these codes. */
    function Matching(code: int): (r: seq<int>)
      requires Valid() && IsCode(code)
      ensures |r| >= 1 && AreCodes(r)
    {
      wildcards[code].codes
    }
  }

  /** A sequence: an alphabet and the codes of its letters. */
  datatype Sequence = Sequence(alphabet: Alphabet, codes: seq<int>)
  {
    predicate Valid() { alphabet.Valid() && alphabet.AreCodes(codes) }

    function Size(): nat { |codes| }
  }
}
