/**
 * The compiled form of a motif: one 64-bit mismatch mask per code, forward and reversed.
 */
module BitapDatas {
  import opened Wrappers
  import opened Bits

  datatype BitapData = BitapData(size: int, patternMask: seq<Long>, reversePatternMask: seq<Long>)
  {
    /** Built from a motif shorter than 64, with one forward and one reversed mask per code. */
    predicate Valid() {
      0 <= size < 64 && |patternMask| == |reversePatternMask|
    }
  }

  /** Java's `BitapData` constructor: the two mask arrays must have the same length. */
  function New(size: int, patternMask: seq<Long>, reversePatternMask: seq<Long>): (r: Outcome<BitapData>)
    ensures r.Ok? <==> |patternMask| == |reversePatternMask|
    ensures r.Ok? ==> r.value.size == size && r.value.patternMask == patternMask
                      && r.value.reversePatternMask == reversePatternMask
    ensures r.Throws? ==> r.exception == IllegalArgument
  {
    if |patternMask| != |reversePatternMask| then Throws(IllegalArgument)
    else Ok(BitapData(size, patternMask, reversePatternMask))
  }

  /** `mask` with forward bit `j` cleared for every non-exact position `j` below `upTo`. */
  function NarrowForward(mask: Long, exactMask: seq<bool>, upTo: nat): Long
    requires upTo <= |exactMask|
  {
    if upTo == 0 then mask
    else if exactMask[upTo - 1] then NarrowForward(mask, exactMask, upTo - 1)
    else And(NarrowForward(mask, exactMask, upTo - 1), Not(OneAt(upTo - 1)))
  }

  /** `mask` with reversed bit `size - 1 - j` cleared for every non-exact position `j` below
    * `upTo`. */
  function NarrowReverse(mask: Long, exactMask: seq<bool>, upTo: nat): Long
    requires upTo <= |exactMask|
  {
    if upTo == 0 then mask
    else if exactMask[upTo - 1] then NarrowReverse(mask, exactMask, upTo - 1)
    else And(NarrowReverse(mask, exactMask, upTo - 1), Not(OneAt(|exactMask| - upTo)))
  }

  /** Bit `b` survives forward narrowing unless it is a non-exact position below `upTo`. */
  lemma {:induction false} NarrowForwardBits(mask: Long, exactMask: seq<bool>, upTo: nat)
    requires upTo <= |exactMask| <= 64
    ensures forall b :: 0 <= b < 64 ==>
              NarrowForward(mask, exactMask, upTo)[b] == (mask[b] && !(b < upTo && !exactMask[b]))
  {
    if upTo > 0 {
      NarrowForwardBits(mask, exactMask, upTo - 1);
      var before := NarrowForward(mask, exactMask, upTo - 1);
      AndBits(before, Not(OneAt(upTo - 1)));
      NotBits(OneAt(upTo - 1));
      OneAtBits(upTo - 1);
    }
  }

  /** Bit `b` survives reversed narrowing unless it is `size - 1 - j` for a non-exact position
    * `j` below `upTo`. */
  lemma {:induction false} NarrowReverseBits(mask: Long, exactMask: seq<bool>, upTo: nat)
    requires upTo <= |exactMask| <= 64
    ensures forall b :: 0 <= b < 64 ==>
              NarrowReverse(mask, exactMask, upTo)[b]
              == (mask[b] && !(|exactMask| - upTo <= b < |exactMask| && !exactMask[|exactMask| - 1 - b]))
  {
    if upTo > 0 {
      NarrowReverseBits(mask, exactMask, upTo - 1);
      var before := NarrowReverse(mask, exactMask, upTo - 1);
      AndBits(before, Not(OneAt(|exactMask| - upTo)));
      NotBits(OneAt(|exactMask| - upTo));
      OneAtBits(|exactMask| - upTo);
    }
  }

  /** The data of the secondary cursor: every non-exact position admits every code. */
  function Secondary(d: BitapData, exactMask: seq<bool>): (r: BitapData)
    requires d.Valid() && |exactMask| == d.size
    ensures r.Valid() && r.size == d.size
    ensures |r.patternMask| == |d.patternMask|
  {
    BitapData(d.size,
      seq(|d.patternMask|, c requires 0 <= c < |d.patternMask| => NarrowForward(d.patternMask[c], exactMask, d.size)),
      seq(|d.reversePatternMask|, c requires 0 <= c < |d.reversePatternMask| =>
        NarrowReverse(d.reversePatternMask[c], exactMask, d.size)))
  }

  /** The secondary data keeps a mismatch bit of code `c` only at exact positions and above the
    * motif. */
  lemma SecondaryBits(d: BitapData, exactMask: seq<bool>, c: int, b: int)
    requires d.Valid() && |exactMask| == d.size
    requires 0 <= c < |d.patternMask| && 0 <= b < 64
    ensures Secondary(d, exactMask).patternMask[c][b] == (d.patternMask[c][b] && (b >= d.size || exactMask[b]))
    ensures Secondary(d, exactMask).reversePatternMask[c][b]
            == (d.reversePatternMask[c][b] && (b >= d.size || exactMask[d.size - 1 - b]))
  {
    NarrowForwardBits(d.patternMask[c], exactMask, d.size);
    NarrowReverseBits(d.reversePatternMask[c], exactMask, d.size);
  }

  /** Narrowing a second time with the same mask changes nothing. */
  lemma SecondaryIdempotent(d: BitapData, exactMask: seq<bool>)
    requires d.Valid() && |exactMask| == d.size
    ensures Secondary(Secondary(d, exactMask), exactMask) == Secondary(d, exactMask)
  {
    var once := Secondary(d, exactMask);
    var twice := Secondary(once, exactMask);
    forall c | 0 <= c < |d.patternMask|
      ensures twice.patternMask[c] == once.patternMask[c]
      ensures twice.reversePatternMask[c] == once.reversePatternMask[c]
    {
      forall b | 0 <= b < 64
        ensures twice.patternMask[c][b] == once.patternMask[c][b]
        ensures twice.reversePatternMask[c][b] == once.reversePatternMask[c][b]
      {
        SecondaryBits(d, exactMask, c, b);
        SecondaryBits(once, exactMask, c, b);
      }
    }
  }

  /** The inner loop of `toSecondary`: clears forward bit `j` and reversed bit `k` of every
    * code's masks. */
  method ClearPosition(forward: array<Long>, reverse: array<Long>, j: nat, k: nat)
    requires forward != reverse && forward.Length == reverse.Length
    modifies forward, reverse
    ensures forall c :: 0 <= c < forward.Length ==> forward[c] == And(old(forward[c]), Not(OneAt(j)))
    ensures forall c :: 0 <= c < reverse.Length ==> reverse[c] == And(old(reverse[c]), Not(OneAt(k)))
  {
    for i := 0 to forward.Length
      invariant forall c :: 0 <= c < i ==> forward[c] == And(old(forward[c]), Not(OneAt(j)))
      invariant forall c :: i <= c < forward.Length ==> forward[c] == old(forward[c])
      invariant forall c :: 0 <= c < i ==> reverse[c] == And(old(reverse[c]), Not(OneAt(k)))
      invariant forall c :: i <= c < reverse.Length ==> reverse[c] == old(reverse[c])
    {
      forward[i] := And(forward[i], Not(OneAt(j)));
      reverse[i] := And(reverse[i], Not(OneAt(k)));
    }
  }

  /** Java's `toSecondary`: copies both mask arrays and, for each non-exact position `j`, clears
    * forward bit `j` and reversed bit `size - 1 - j` of every code's masks. */
  method ToSecondary(d: BitapData, exactMask: seq<bool>) returns (r: Outcome<BitapData>)
    requires d.Valid()
    ensures r.Throws? <==> |exactMask| != d.size
    ensures r.Throws? ==> r.exception == IllegalArgument
    ensures r.Ok? ==> r.value == Secondary(d, exactMask)
  {
    if |exactMask| != d.size {
      return Throws(IllegalArgument);
    }
    var size := d.size;
    var n := |d.patternMask|;
    var forward := new Long[n](c requires 0 <= c < n => d.patternMask[c]);
    var reverse := new Long[n](c requires 0 <= c < n => d.reversePatternMask[c]);
    for j := 0 to size
      invariant forall c :: 0 <= c < n ==> forward[c] == NarrowForward(d.patternMask[c], exactMask, j)
      invariant forall c :: 0 <= c < n ==> reverse[c] == NarrowReverse(d.reversePatternMask[c], exactMask, j)
    {
      if !exactMask[j] {
        ClearPosition(forward, reverse, j, size - j - 1);
      } else {
        assert forall c :: 0 <= c < n ==>
          NarrowForward(d.patternMask[c], exactMask, j) == NarrowForward(d.patternMask[c], exactMask, j + 1);
      }
    }
    return Ok(BitapData(size, forward[..], reverse[..]));
  }
}
