/**
 * `NucleotideSequence`: a nucleotide sequence stored as one byte code per letter, with range
 * extraction, reverse complement, wildcard tests and a region comparison. Codes 0 to 3 are the
 * basic letters; codes 4 to 14 are the wildcards (N, R, Y, S, W, K, M, B, D, H, V). The alphabet's
 * `complementCode` and `symbolToCode` are not part of this model and are passed in as functions.
 */
module Nucleotides {
  import opened Wrappers

  /** A Java `byte`. */
  type Byte = b: int | -128 <= b < 128

  /** The number of cached one-letter sequences, one per code A to V. */
  const OneLetterCount := 15

  /** A `Range`: the positions `[lower, upper)`, read backwards when `reversed`. */
  datatype Range = Range(lower: int, upper: int, reversed: bool)
  {
    /** A range never has its bounds the wrong way round. */
    predicate Valid() { lower <= upper }

    function Length(): int { upper - lower }
  }

  datatype NucleotideSequence = NucleotideSequence(data: seq<Byte>)
  {
    function Size(): nat { |data| }

    /** Every code is a letter of the nucleotide alphabet, A to V. */
    predicate Valid() {
      forall i :: 0 <= i < |data| ==> 0 <= data[i] < OneLetterCount
    }
  }

  /** Java's `EMPTY`. */
  const Empty := NucleotideSequence([])

  /** Java's `isWildcard`: every code from 4 up is a wildcard, so a letter that is not one is a
    * basic letter, which fits the two bits `ShortSequenceSet` packs it into. */
  predicate IsWildcard(code: Byte)
    ensures 0 <= code && !IsWildcard(code) ==> code < 4
  {
    code >= 4
  }

  /** The reverse complement of `s`: its letters read from the last, each replaced by its
    * complement. */
  function ReverseComplement(s: seq<Byte>, complement: Byte -> Byte): (r: seq<Byte>)
    ensures |r| == |s|
  {
    if s == [] then [] else [complement(s[|s| - 1])] + ReverseComplement(s[..|s| - 1], complement)
  }

  /** Letter `k` of the reverse complement is the complement of letter `|s| - 1 - k`. */
  lemma {:induction false} ReverseComplementIndex(s: seq<Byte>, complement: Byte -> Byte, k: int)
    requires 0 <= k < |s|
    ensures ReverseComplement(s, complement)[k] == complement(s[|s| - 1 - k])
  {
    if k > 0 {
      var front := s[..|s| - 1];
      ReverseComplementIndex(front, complement, k - 1);
    }
  }

  /** Every letter of the reverse complement, as `ReverseComplementIndex` gives it. */
  lemma ReverseComplementAt(s: seq<Byte>, complement: Byte -> Byte)
    ensures forall k :: 0 <= k < |s| ==> ReverseComplement(s, complement)[k] == complement(s[|s| - 1 - k])
  {
    forall k | 0 <= k < |s|
      ensures ReverseComplement(s, complement)[k] == complement(s[|s| - 1 - k])
    {
      ReverseComplementIndex(s, complement, k);
    }
  }

  /** The reverse complement of a concatenation is the concatenation of the reverse complements,
    * in the opposite order. */
  lemma ReverseComplementAppend(a: seq<Byte>, b: seq<Byte>, complement: Byte -> Byte)
    ensures ReverseComplement(a + b, complement)
            == ReverseComplement(b, complement) + ReverseComplement(a, complement)
  {
    ReverseComplementAt(a + b, complement);
    ReverseComplementAt(a, complement);
    ReverseComplementAt(b, complement);
  }

  /** With a complement that undoes itself, taking the reverse complement twice gives back the
    * sequence. */
  lemma ReverseComplementTwice(s: seq<Byte>, complement: Byte -> Byte)
    requires forall b: Byte :: complement(complement(b)) == b
    ensures ReverseComplement(ReverseComplement(s, complement), complement) == s
  {
    var once := ReverseComplement(s, complement);
    ReverseComplementAt(s, complement);
    ReverseComplementAt(once, complement);
    forall k | 0 <= k < |s|
      ensures ReverseComplement(once, complement)[k] == s[k]
    {
      assert once[|s| - 1 - k] == complement(s[k]);
    }
  }

  /** Java's `getOneLetterSequence`: the cached sequence holding just `letter`; the cache has one
    * entry per code, and any other index falls outside it. */
  function OneLetter(letter: Byte): (r: Outcome<NucleotideSequence>)
    ensures r.Ok? <==> 0 <= letter < OneLetterCount
    ensures r.Ok? ==> r.value.data == [letter]
    ensures r.Throws? ==> r.exception == IndexOutOfBounds
  {
    if 0 <= letter < OneLetterCount then Ok(NucleotideSequence([letter])) else Throws(IndexOutOfBounds)
  }

  /** Java's `transformToRC`: a new array holding the reverse complement of `data[from..to]`,
    * filled from its first position. */
  method TransformToRC(data: seq<Byte>, from: int, to: int, complement: Byte -> Byte) returns (r: seq<Byte>)
    requires 0 <= from <= to <= |data|
    ensures r == ReverseComplement(data[from..to], complement)
  {
    var newData := new Byte[to - from];
    var coord := 0;
    while coord < to - from
      invariant 0 <= coord <= to - from
      invariant forall k :: 0 <= k < coord ==> newData[k] == complement(data[to - 1 - k])
    {
      var reverseCoord := to - 1 - coord;
      newData[coord] := complement(data[reverseCoord]);
      coord := coord + 1;
    }
    ReverseComplementAt(data[from..to], complement);
    r := newData[..];
  }

  /** Both bounds of `range` lie within the sequence. */
  predicate InBounds(s: NucleotideSequence, range: Range) {
    0 <= range.lower <= s.Size() && 0 <= range.upper <= s.Size()
  }

  /** The letters a range selects: the forward slice, or its reverse complement for a reversed
    * range. */
  function Extract(s: NucleotideSequence, range: Range, complement: Byte -> Byte): seq<Byte>
    requires range.Valid() && InBounds(s, range)
  {
    var slice := s.data[range.lower..range.upper];
    if range.reversed then ReverseComplement(slice, complement) else slice
  }

  /** The single letter a one-letter range yields. */
  function SingleLetter(s: NucleotideSequence, range: Range, complement: Byte -> Byte): Byte
    requires range.Valid() && InBounds(s, range) && range.Length() == 1
  {
    if range.reversed then complement(s.data[range.lower]) else s.data[range.lower]
  }

  /** Java's `getRange`: throws when a bound lies outside the sequence; otherwise the letters of
    * the range, taken from the one-letter cache when there is exactly one. */
  method GetRange(s: NucleotideSequence, range: Range, complement: Byte -> Byte) returns (r: Outcome<NucleotideSequence>)
    requires range.Valid()
    ensures !InBounds(s, range) ==> r == Throws(IndexOutOfBounds)
    ensures InBounds(s, range) && range.Length() != 1 ==> r.Ok?
    ensures InBounds(s, range) && range.Length() == 1 ==>
              (r.Ok? <==> 0 <= SingleLetter(s, range, complement) < OneLetterCount)
    ensures r.Throws? ==> r.exception == IndexOutOfBounds
    ensures r.Ok? ==> InBounds(s, range) && r.value.data == Extract(s, range, complement)
  {
    if range.lower < 0 || range.upper < 0 || range.lower > s.Size() || range.upper > s.Size() {
      return Throws(IndexOutOfBounds);
    }
    if range.Length() == 0 {
      return Ok(Empty);
    }
    if range.Length() == 1 {
      var slice := s.data[range.lower..range.upper];
      assert slice == [s.data[range.lower]];
      assert ReverseComplement(slice, complement) == [complement(s.data[range.lower])];
      if range.reversed {
        return OneLetter(complement(s.data[range.lower]));
      }
      return OneLetter(s.data[range.lower]);
    }
    if range.reversed {
      var data := TransformToRC(s.data, range.lower, range.upper, complement);
      return Ok(NucleotideSequence(data));
    }
    return Ok(NucleotideSequence(s.data[range.lower..range.upper]));
  }

  /** Java's `getReverseComplement`. */
  method GetReverseComplement(s: NucleotideSequence, complement: Byte -> Byte) returns (r: NucleotideSequence)
    ensures r.data == ReverseComplement(s.data, complement)
    ensures r.Size() == s.Size()
  {
    var data := TransformToRC(s.data, 0, |s.data|, complement);
    assert s.data[0..|s.data|] == s.data;
    r := NucleotideSequence(data);
  }

  /** Java's `containsWildcards(from, to)`: reads the codes from `from` upwards and stops at the
    * first wildcard; reading a position outside the sequence throws. */
  method ContainsWildcardsIn(s: NucleotideSequence, from: int, to: int) returns (r: Outcome<bool>)
    ensures r.Throws? ==> r.exception == IndexOutOfBounds
    ensures r == Ok(true) <==>
              0 <= from && exists i :: from <= i < to && i < s.Size() && IsWildcard(s.data[i])
    ensures r == Ok(false) <==>
              from >= to || (0 <= from && to <= s.Size() && forall i :: from <= i < to ==> !IsWildcard(s.data[i]))
  {
    var i := from;
    while i < to
      invariant from <= i && (i <= to || i == from)
      invariant i == from || (0 <= from && i <= s.Size())
      invariant forall j :: from <= j < i ==> 0 <= j < s.Size() && !IsWildcard(s.data[j])
    {
      if !(0 <= i < s.Size()) {
        return Throws(IndexOutOfBounds);
      }
      if IsWildcard(s.data[i]) {
        return Ok(true);
      }
      i := i + 1;
    }
    return Ok(false);
  }

  /** Java's `containsWildcards()`: whether any letter of the sequence is a wildcard. */
  method ContainsWildcards(s: NucleotideSequence) returns (r: bool)
    ensures r <==> exists i :: 0 <= i < s.Size() && IsWildcard(s.data[i])
  {
    var scan := ContainsWildcardsIn(s, 0, s.Size());
    r := scan.value;
  }

  /** Java's static `equals`: whether `seq1[from1..to1]` equals the same number of codes of `seq2`
    * from `from2`; false at once when `seq2` is too short, and a read outside either sequence
    * throws. */
  method RegionEquals(seq1: NucleotideSequence, from1: int, to1: int, seq2: NucleotideSequence, from2: int)
    returns (r: Outcome<bool>)
    ensures seq2.Size() < from2 + to1 - from1 ==> r == Ok(false)
    ensures 0 <= from1 <= to1 <= seq1.Size() && 0 <= from2 && from2 + to1 - from1 <= seq2.Size() ==>
              r == Ok(seq1.data[from1..to1] == seq2.data[from2..from2 + to1 - from1])
    ensures r.Throws? ==> r.exception == IndexOutOfBounds && from1 < to1
                          && (from1 < 0 || from2 < 0 || to1 > seq1.Size())
  {
    if seq2.Size() < from2 + to1 - from1 {
      return Ok(false);
    }
    var i, j := from1, from2;
    while i < to1
      invariant from1 <= i && (i <= to1 || i == from1)
      invariant i == from1 || (0 <= from1 && i <= seq1.Size() && 0 <= from2)
      invariant j - from2 == i - from1
      invariant forall k :: from1 <= k < i ==> 0 <= k < seq1.Size() && 0 <= k - from1 + from2 < seq2.Size()
                                               && seq1.data[k] == seq2.data[k - from1 + from2]
    {
      if !(0 <= i < seq1.Size() && 0 <= j < seq2.Size()) {
        return Throws(IndexOutOfBounds);
      }
      if seq1.data[i] != seq2.data[j] {
        if 0 <= from1 <= to1 <= seq1.Size() && 0 <= from2 {
          assert seq1.data[from1..to1][i - from1] != seq2.data[from2..from2 + to1 - from1][i - from1];
        }
        return Ok(false);
      }
      i, j := i + 1, j + 1;
    }
    if 0 <= from1 <= to1 <= seq1.Size() && 0 <= from2 {
      assert seq1.data[from1..to1] == seq2.data[from2..from2 + to1 - from1];
    }
    return Ok(true);
  }

  /** Java's `(char)` conversion of a byte: sign-extended, then cut to sixteen bits. */
  function CharCode(b: Byte): (r: int)
    ensures 0 <= r < 0x1_0000
    ensures r % 0x1_0000 == b % 0x1_0000
  {
    if b < 0 then b + 0x1_0000 else b
  }

  /** Java's `fromSequence(sequence, offset, length)`: the codes of `length` characters of
    * `sequence` from `offset`, each read as a character and converted by `symbolToCode`. */
  method FromSequence(sequence: seq<Byte>, offset: int, length: int, symbolToCode: int -> Byte)
    returns (r: Outcome<NucleotideSequence>)
    ensures length < 0 ==> r == Throws(NegativeArraySize)
    ensures r.Ok? <==> 0 <= length && (length == 0 || (0 <= offset && offset + length <= |sequence|))
    ensures r.Throws? && 0 <= length ==> r.exception == IndexOutOfBounds
    ensures r.Ok? ==> r.value.Size() == length
    ensures r.Ok? ==> forall i :: 0 <= i < length ==> r.value.data[i] == symbolToCode(CharCode(sequence[offset + i]))
  {
    if length < 0 {
      return Throws(NegativeArraySize);
    }
    var storage := new Byte[length];
    var i := 0;
    while i < length
      invariant 0 <= i <= length
      invariant i > 0 ==> 0 <= offset && offset + i <= |sequence|
      invariant forall k :: 0 <= k < i ==> storage[k] == symbolToCode(CharCode(sequence[offset + k]))
    {
      if !(0 <= offset + i < |sequence|) {
        return Throws(IndexOutOfBounds);
      }
      storage[i] := symbolToCode(CharCode(sequence[offset + i]));
      i := i + 1;
    }
    return Ok(NucleotideSequence(storage[..]));
  }
}
