/**
 * `ShortSequenceSet`: a set of short nucleotide sequences, each stored as one Java `long`. The
 * encoder packs the codes two bits each, the first code most significant, and puts the length in
 * the bits from 58 up. A `long` is modelled by its unsigned 64-bit value.
 */
module ShortSequenceSets {
  import opened Wrappers
  import opened Nucleotides

  /** The longest sequence the encoder accepts. */
  const MaxLength := 29

  /** The bit at which the encoder stores the length. */
  const LengthShift := 58

  /** `2^58`, the value of one unit of length in a stored value. */
  const LengthUnit := 0x400_0000_0000_0000

  /** `2^64`: a `long` has 64 bits. */
  const LongRange := 0x1_0000_0000_0000_0000

  function Pow2(n: nat): (r: nat)
    ensures r >= 1
  {
    if n == 0 then 1 else 2 * Pow2(n - 1)
  }

  function Pow4(n: nat): (r: nat)
    ensures r >= 1
  {
    if n == 0 then 1 else 4 * Pow4(n - 1)
  }

  /** Two bits per base-4 digit. */
  lemma {:induction false} Pow2Twice(n: nat)
    ensures Pow2(2 * n) == Pow4(n)
  {
    if n > 0 {
      Pow2Twice(n - 1);
      assert Pow2(2 * n) == 4 * Pow2(2 * (n - 1));
    }
  }

  /** Powers of four multiply by adding exponents. */
  lemma {:induction false} Pow4Add(a: nat, b: nat)
    ensures Pow4(a + b) == Pow4(a) * Pow4(b)
  {
    if a > 0 {
      Pow4Add(a - 1, b);
    }
  }

  /** The powers the encoder reaches: 28 and 29 digits. */
  lemma Pow4Table()
    ensures Pow4(28) == LengthUnit / 4 && Pow4(29) == LengthUnit
  {
    assert Pow4(7) == 0x4000;
    Pow4Add(7, 7);
    Pow4Add(14, 14);
    assert Pow4(29) == 4 * Pow4(28);
  }

  /** A larger exponent gives a power at least as large. */
  lemma {:induction false} Pow4Grows(m: nat, n: nat)
    requires m <= n
    ensures Pow4(m) <= Pow4(n)
  {
    if m < n {
      Pow4Grows(m, n - 1);
    }
  }

  /** Java's `a | b` on the unsigned 64-bit values of two `long`s, bit by bit from the lowest. */
  function BitOr(a: nat, b: nat): nat
    decreases a + b
  {
    if a == 0 then b
    else if b == 0 then a
    else 2 * BitOr(a / 2, b / 2) + (if a % 2 == 1 || b % 2 == 1 then 1 else 0)
  }

  /** Java's `x << n`, for a shift distance below 64, on the unsigned 64-bit value of a `long`:
    * the bits moved past bit 63 are lost. */
  function ShiftLeft(x: nat, n: nat): nat {
    (x * Pow2(n)) % LongRange
  }

  /** Java's widening of a `byte` to a `long`, as an unsigned 64-bit value: a negative byte is
    * sign-extended. */
  function Widen(b: Byte): nat {
    if b < 0 then LongRange + b else b
  }

  /** ORing a code below 4 into a value whose two low bits are clear adds it. */
  lemma OrLowBits(x: nat, c: nat)
    requires c < 4
    ensures BitOr(4 * x, c) == 4 * x + c
  {
    if x != 0 && c != 0 {
      assert BitOr(4 * x, c) == 2 * BitOr(2 * x, c / 2) + c % 2;
      if c / 2 != 0 {
        assert BitOr(2 * x, c / 2) == 2 * BitOr(x, 0) + (c / 2) % 2;
      }
    }
  }

  /** ORing a multiple of `2^k` into a value below `2^k` adds it. */
  lemma {:induction false} OrHighBits(d: nat, n: nat, k: nat)
    requires d < Pow2(k)
    ensures BitOr(d, n * Pow2(k)) == d + n * Pow2(k)
  {
    if k > 0 && d != 0 && n != 0 {
      var high := n * Pow2(k - 1);
      assert n * Pow2(k) == 2 * high;
      assert (2 * high) / 2 == high && (2 * high) % 2 == 0;
      OrHighBits(d / 2, n, k - 1);
      assert BitOr(d, 2 * high) == 2 * BitOr(d / 2, high) + d % 2;
    }
  }

  /** The codes are basic letters, two bits each. */
  predicate BasicCodes(codes: seq<Byte>) {
    forall i :: 0 <= i < |codes| ==> 0 <= codes[i] < 4
  }

  /** The codes read as a base-4 number, the first code most significant. */
  function Digits(codes: seq<Byte>): (r: nat)
    requires BasicCodes(codes)
    ensures r < Pow4(|codes|)
  {
    if codes == [] then 0 else Digits(codes[..|codes| - 1]) * 4 + codes[|codes| - 1]
  }

  /** What the encoder can store: at most 29 basic letters. */
  predicate Encodable(codes: seq<Byte>) {
    |codes| <= MaxLength && BasicCodes(codes)
  }

  /** The stored value of a sequence: its base-4 digits below bit 58 and its length above. */
  function Encode(codes: seq<Byte>): nat
    requires Encodable(codes)
  {
    Digits(codes) + |codes| * LengthUnit
  }

  /** The `n` base-4 digits of `d`, most significant first. */
  function Undigits(d: nat, n: nat): (r: seq<Byte>)
    ensures |r| == n && BasicCodes(r)
  {
    if n == 0 then [] else Undigits(d / 4, n - 1) + [d % 4]
  }

  /** Reads a stored value back: the length from bit 58 up, then that many digits below. */
  function Decode(v: nat): seq<Byte> {
    Undigits(v % LengthUnit, v / LengthUnit)
  }

  /** The digits of a sequence spell it back out. */
  lemma {:induction false} UndigitsDigits(codes: seq<Byte>)
    requires BasicCodes(codes)
    ensures Undigits(Digits(codes), |codes|) == codes
  {
    if codes != [] {
      var front := codes[..|codes| - 1];
      UndigitsDigits(front);
      assert codes == front + [codes[|codes| - 1]];
    }
  }

  /** Every stored value decodes to the sequence it came from. */
  lemma DecodeEncode(codes: seq<Byte>)
    requires Encodable(codes)
    ensures Decode(Encode(codes)) == codes
  {
    var d := Digits(codes);
    Pow4Grows(|codes|, MaxLength);
    Pow4Table();
    assert (d + |codes| * LengthUnit) / LengthUnit == |codes|;
    assert (d + |codes| * LengthUnit) % LengthUnit == d;
    UndigitsDigits(codes);
  }

  /** Two sequences the encoder accepts are stored as the same value only if they are equal. */
  lemma EncodeInjective(a: seq<Byte>, b: seq<Byte>)
    requires Encodable(a) && Encodable(b) && Encode(a) == Encode(b)
    ensures a == b
  {
    DecodeEncode(a);
    DecodeEncode(b);
  }

  /** A stored value fits in a non-negative `long`. */
  lemma EncodeBound(codes: seq<Byte>)
    requires Encodable(codes)
    ensures Encode(codes) < LongRange / 2
  {
    Pow4Grows(|codes|, MaxLength);
    Pow4Table();
  }

  /** Shifting the digits of at most 28 letters by two bits loses nothing. */
  lemma ShiftDigits(d: nat)
    requires d < Pow4(MaxLength - 1)
    ensures ShiftLeft(d, 2) == 4 * d
  {
    Pow4Table();
    assert Pow2(2) == 4;
  }

  /** One turn of the packing loop: `ret <<= 2; ret |= code`. */
  lemma PackStep(prefix: seq<Byte>, code: Byte)
    requires BasicCodes(prefix + [code]) && |prefix| < MaxLength
    ensures BasicCodes(prefix)
    ensures BitOr(ShiftLeft(Digits(prefix), 2), Widen(code)) == Digits(prefix + [code])
  {
    var next := prefix + [code];
    assert next[..|prefix|] == prefix;
    assert next[|prefix|] == code;
    var d := Digits(prefix);
    Pow4Grows(|prefix|, MaxLength - 1);
    ShiftDigits(d);
    assert Widen(code) == code;
    OrLowBits(d, code);
  }

  /** Java's static `toLong`: throws for sequences longer than 29 letters and for sequences with
    * a wildcard; otherwise the packed value. */
  method ToLong(s: NucleotideSequence) returns (r: Outcome<nat>)
    ensures r.Throws? <==> s.Size() > MaxLength || exists i :: 0 <= i < s.Size() && IsWildcard(s.data[i])
    ensures r.Throws? ==> r.exception == IllegalArgument
    ensures r.Ok? && s.Valid() ==> Encodable(s.data) && r.value == Encode(s.data)
  {
    if s.Size() > MaxLength {
      return Throws(IllegalArgument);
    }
    var wildcards := ContainsWildcards(s);
    if wildcards {
      return Throws(IllegalArgument);
    }
    var ret: nat := 0;
    for i := 0 to s.Size()
      invariant s.Valid() ==> BasicCodes(s.data[..i]) && ret == Digits(s.data[..i])
    {
      if s.Valid() {
        assert s.data[..i + 1] == s.data[..i] + [s.data[i]];
        PackStep(s.data[..i], s.data[i]);
      }
      ret := ShiftLeft(ret, 2);
      ret := BitOr(ret, Widen(s.data[i]));
    }
    if s.Valid() {
      assert s.data[..s.Size()] == s.data;
      Pow4Grows(s.Size(), MaxLength);
      Pow4Table();
      Pow2Twice(MaxLength);
      assert ShiftLeft(s.Size(), LengthShift) == s.Size() * LengthUnit;
      OrHighBits(ret, s.Size(), LengthShift);
    }
    ret := BitOr(ret, ShiftLeft(s.Size(), LengthShift));
    return Ok(ret);
  }

  /** A valid sequence the encoder accepts is one without wildcards, of at most 29 letters. */
  lemma EncodableWhenAccepted(s: NucleotideSequence)
    requires s.Valid()
    ensures Encodable(s.data) <==>
              s.Size() <= MaxLength && forall i :: 0 <= i < s.Size() ==> !IsWildcard(s.data[i])
  {
  }

  /** The value a sequence is stored as; a sequence the encoder rejects is never stored, so its
    * value here is one no stored sequence has. */
  function Key(x: seq<Byte>): nat {
    if Encodable(x) then Encode(x) else LongRange
  }

  /** The images of the members of `c` under `f`. */
  ghost function ImageOf<T>(c: set<T>, f: T -> nat): set<nat> {
    set y | y in c :: f(y)
  }

  /** Adding a member whose image no other member shares adds its image, which is new exactly
    * when the member is, and keeps the members and their images one to one. */
  lemma ImageInsert<T>(c: set<T>, x: T, f: T -> nat)
    requires |ImageOf(c, f)| == |c|
    requires forall y :: y in c && f(y) == f(x) ==> y == x
    ensures ImageOf(c + {x}, f) == ImageOf(c, f) + {f(x)}
    ensures f(x) in ImageOf(c, f) <==> x in c
    ensures |ImageOf(c + {x}, f)| == |c + {x}|
  {
    assert ImageOf(c + {x}, f) == ImageOf(c, f) + {f(x)};
    if x in c {
      assert c + {x} == c;
    } else {
      assert forall y :: y in c ==> f(y) != f(x);
    }
  }

  /** Java's `ShortSequenceSet`: `values` is its set of `long`s (Java's `set`), and `contents`
    * the set of sequences added so far, which the stored values encode one to one. */
  class ShortSequenceSet {
    var values: set<nat>
    ghost var contents: set<seq<Byte>>

    ghost predicate Valid()
      reads this
    {
      && (forall x :: x in contents ==> Encodable(x))
      && values == ImageOf(contents, Key)
      && |values| == |contents|
    }

    constructor ()
      ensures Valid() && contents == {}
    {
      values := {};
      contents := {};
    }

    /** Java's `add`: throws as `toLong` does; otherwise stores the sequence and tells whether it
      * was new. */
    method Add(s: NucleotideSequence) returns (r: Outcome<bool>)
      requires Valid() && s.Valid()
      modifies this
      ensures Valid()
      ensures r.Throws? <==> !Encodable(s.data)
      ensures r.Throws? ==> r.exception == IllegalArgument && contents == old(contents) && values == old(values)
      ensures r.Ok? ==> contents == old(contents) + {s.data} && (r.value <==> s.data !in old(contents))
    {
      var key := ToLong(s);
      if key.Throws? {
        return Throws(key.exception);
      }
      forall y | y in contents && Key(y) == Key(s.data)
        ensures y == s.data
      {
        EncodeInjective(y, s.data);
      }
      ImageInsert(contents, s.data, Key);
      var isNew := key.value !in values;
      values := values + {key.value};
      contents := contents + {s.data};
      return Ok(isNew);
    }

    /** Java's `contains`: false at once for a sequence with a wildcard; otherwise throws for a
      * sequence longer than 29 letters, as `toLong` does, and else looks the value up. */
    method Contains(s: NucleotideSequence) returns (r: Outcome<bool>)
      requires Valid() && s.Valid()
      ensures (exists i :: 0 <= i < s.Size() && IsWildcard(s.data[i])) ==> r == Ok(false)
      ensures r.Throws? <==> !Encodable(s.data) && forall i :: 0 <= i < s.Size() ==> !IsWildcard(s.data[i])
      ensures r.Throws? ==> r.exception == IllegalArgument
      ensures r.Ok? ==> (r.value <==> s.data in contents)
    {
      var wildcards := ContainsWildcards(s);
      if wildcards {
        assert !Encodable(s.data);
        return Ok(false);
      }
      var key := ToLong(s);
      if key.Throws? {
        return Throws(key.exception);
      }
      r := Ok(key.value in values);
      if key.value in values {
        ghost var x :| x in contents && Key(x) == key.value;
        EncodeInjective(x, s.data);
      }
    }

    /** Java's `size`: the number of distinct sequences added. */
    function Size(): (r: nat)
      reads this
      requires Valid()
      ensures r == |contents|
    {
      |values|
    }
  }

  /** A sequence that was added is then found. */
  method AddThenContains(t: ShortSequenceSet, s: NucleotideSequence) returns (added: Outcome<bool>, found: Outcome<bool>)
    requires t.Valid() && s.Valid()
    modifies t
    ensures added.Ok? ==> found == Ok(true)
    ensures added.Throws? <==> !Encodable(s.data)
  {
    added := t.Add(s);
    found := t.Contains(s);
  }
}
