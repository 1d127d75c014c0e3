/**
 * Java `long` registers as 64 explicit bits (index 0 is the least significant bit), with the
 * bitwise operators the matcher uses and the shift semantics of Java's `<<`.
 */
module Bits {
  /** 64 copies of one bit. */
  function Fill(b: bool): (r: seq<bool>)
    ensures |r| == 64
    ensures forall j :: 0 <= j < 64 ==> r[j] == b
  {
    seq(64, _ => b)
  }

  /** A 64-bit two's-complement word, bit by bit. */
  type Long = w: seq<bool> | |w| == 64 witness Fill(false)

  /** Java's `0L`. */
  const Zero: Long := Fill(false)

  /** Java's `~0L`. */
  const AllOnes: Long := Fill(true)

  /** Java's `a | b`. */
  function Or(a: Long, b: Long): Long {
    seq(64, j requires 0 <= j < 64 => a[j] || b[j])
  }

  /** Java's `a & b`. */
  function And(a: Long, b: Long): Long {
    seq(64, j requires 0 <= j < 64 => a[j] && b[j])
  }

  /** Java's `~a`. */
  function Not(a: Long): Long {
    seq(64, j requires 0 <= j < 64 => !a[j])
  }

  /** Java's `a << 1`: every bit moves one position up, bit 63 is lost and a 0 enters at bit 0. */
  function Shl1(a: Long): Long {
    [false] + a[..63]
  }

  // The operators' bits are stated by lemmas rather than postconditions, so that a proof about
  // whole registers does not unfold every register it mentions into its 64 bits.

  lemma OrBits(a: Long, b: Long)
    ensures forall j :: 0 <= j < 64 ==> Or(a, b)[j] == (a[j] || b[j])
  {
  }

  lemma AndBits(a: Long, b: Long)
    ensures forall j :: 0 <= j < 64 ==> And(a, b)[j] == (a[j] && b[j])
  {
  }

  lemma NotBits(a: Long)
    ensures forall j :: 0 <= j < 64 ==> Not(a)[j] == !a[j]
  {
  }

  lemma Shl1Bits(a: Long)
    ensures !Shl1(a)[0]
    ensures forall j :: 1 <= j < 64 ==> Shl1(a)[j] == a[j - 1]
  {
  }

  /** The distance Java's `<<` on a `long` actually shifts by: the low six bits of `n`. */
  function ShiftDistance(n: int): (k: nat)
    ensures k < 64
    ensures 0 <= n < 64 ==> k == n
  {
    n % 64
  }

  /** Java's `1L << n`. */
  function OneAt(n: int): Long {
    seq(64, j => j == ShiftDistance(n))
  }

  /** Java's `~0L << n`. */
  function OnesFrom(n: int): Long {
    seq(64, j => j >= ShiftDistance(n))
  }

  lemma OneAtBits(n: int)
    ensures forall j :: 0 <= j < 64 ==> OneAt(n)[j] == (j == ShiftDistance(n))
  {
  }

  lemma OnesFromBits(n: int)
    ensures forall j :: 0 <= j < 64 ==> OnesFrom(n)[j] == (j >= ShiftDistance(n))
  {
  }

  /** Java's `w == 0L`: no bit of `w` is set. */
  predicate IsZero(w: seq<bool>) {
    |w| == 0 || (!w[0] && IsZero(w[1..]))
  }

  lemma {:induction false} IsZeroBits(w: seq<bool>)
    ensures IsZero(w) <==> forall j :: 0 <= j < |w| ==> !w[j]
  {
    if |w| > 0 {
      IsZeroBits(w[1..]);
      assert forall j :: 1 <= j < |w| ==> w[j] == w[1..][j - 1];
    }
  }

  /** Java's test `0 == (x & (1L << n))`. */
  predicate BitClear(x: Long, n: int) {
    IsZero(And(x, OneAt(n)))
  }

  /** The test reads bit `n mod 64` of `x`. */
  lemma TestOneAt(x: Long, n: int)
    ensures BitClear(x, n) == !x[ShiftDistance(n)]
  {
    AndBits(x, OneAt(n));
    OneAtBits(n);
    IsZeroBits(And(x, OneAt(n)));
  }
}
