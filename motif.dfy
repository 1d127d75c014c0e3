/**
 * A motif: a fixed-length pattern whose every position admits a set of letters. The admissions
 * are kept, as in the source, in one flat bit array indexed by `code * size + position`.
 */
module Motifs {
  import opened Wrappers
  import opened Alphabets
  import opened Bits

  /** The flat index of (code, position) is in range and distinct (code, position) pairs never share it. */
  lemma CellIndex(code: int, n: int, size: int, position: int)
    requires 0 <= code < n && 0 <= position < size
    ensures 0 <= code * size + position < n * size
  {
    assert code * size <= (n - 1) * size by {
      MulMonotone(code, n - 1, size);
    }
  }

  lemma MulMonotone(a: int, b: int, k: int)
    requires 0 <= a <= b && 0 <= k
    ensures a * k <= b * k
  {
  }

  lemma MulCancel(a: int, b: int, k: int)
    requires 0 <= k && a * k < b * k
    ensures a < b
  {
    if b <= a {
      MulMonotoneInt(b, a, k);
    }
  }

  lemma MulMonotoneInt(a: int, b: int, k: int)
    requires a <= b && 0 <= k
    ensures a * k <= b * k
  {
  }

  lemma {:induction false} CellInjective(c1: int, p1: int, c2: int, p2: int, size: int)
    requires 0 <= c1 && 0 <= c2 && 0 <= p1 < size && 0 <= p2 < size
    requires c1 * size + p1 == c2 * size + p2
    ensures c1 == c2 && p1 == p2
  {
    if c1 < c2 {
      MulMonotone(c1 + 1, c2, size);
    } else if c2 < c1 {
      MulMonotone(c2 + 1, c1, size);
    }
  }

  /** The admission bit of (code, position) in a flat array of `n` codes by `size` positions;
    * false outside the array. */
  function Cell(data: seq<bool>, n: int, size: int, code: int, position: int): bool
  {
    if |data| == n * size && 0 <= code < n && 0 <= position < size then
      CellIndex(code, n, size, position);
      data[code * size + position]
    else
      false
  }

  /** Some code is admitted at `position`. */
  predicate PositionAllowed(data: seq<bool>, n: int, size: int, position: int)
    requires |data| == n * size && 0 <= position < size
  {
    exists code :: 0 <= code < n && Cell(data, n, size, code, position)
  }

  /** Every position admits at least one code: the condition the source's constructor enforces. */
  predicate Consistent(data: seq<bool>, n: int, size: int)
    requires |data| == n * size
  {
    forall position :: 0 <= position < size ==> PositionAllowed(data, n, size, position)
  }

  datatype Motif = Motif(alphabet: Alphabet, size: nat, data: seq<bool>)
  {
    /** The bit array holds one bit per (code, position). */
    predicate Valid() {
      alphabet.Valid() && |data| == alphabet.size * size
    }

    /** Java's `allows(code, position)`: bit `code * size + position` of the flat array, which
      * lies inside it (and is no other pair's bit, `CellInjective`). */
    predicate Allows(code: int, position: int)
      requires Valid() && alphabet.IsCode(code) && 0 <= position < size
      ensures 0 <= code * size + position < |data|
      ensures Allows(code, position) <==> data[code * size + position]
    {
      CellIndex(code, alphabet.size, size, position);
      Cell(data, alphabet.size, size, code, position)
    }

    /** The number of positions of window `w`, laid over the start of the motif, that hold a
      * letter the motif does not admit there. */
    function Mismatches(w: seq<int>): (r: nat)
      requires Valid() && alphabet.AreCodes(w) && |w| <= size
      ensures r <= |w|
    {
      if |w| == 0 then 0
      else Mismatches(w[..|w| - 1]) + (if Allows(w[|w| - 1], |w| - 1) then 0 else 1)
    }

    /** Every position of window `w` holds a letter the motif admits there. */
    predicate Fits(w: seq<int>)
      requires Valid() && alphabet.AreCodes(w) && |w| <= size
    {
      forall i :: 0 <= i < |w| ==> Allows(w[i], i)
    }
  }

  /** A window fits exactly when it has no disallowed position. */
  lemma {:induction false} MismatchesZero(m: Motif, w: seq<int>)
    requires m.Valid() && m.alphabet.AreCodes(w) && |w| <= m.size
    ensures m.Mismatches(w) == 0 <==> m.Fits(w)
  {
    if |w| > 0 {
      MismatchesZero(m, w[..|w| - 1]);
      assert forall i :: 0 <= i < |w| - 1 ==> w[..|w| - 1][i] == w[i];
    }
  }

  /** Java's private constructor `Motif(alphabet, size, data)`: it rejects data in which some
    * position admits no code; then computing the bit pattern and the maximal bit score reads the
    * cost-table entry `allowedBasicCodes(i) - 1` of every position, which is out of range where a
    * position admits no basic letter. */
  function New(alphabet: Alphabet, size: nat, data: seq<bool>): (r: Outcome<Motif>)
    requires alphabet.Valid() && |data| == alphabet.size * size
    ensures r.Ok? <==> Consistent(data, alphabet.size, size) && BasicAtEveryPosition(Motif(alphabet, size, data))
    ensures r.Ok? ==> r.value.Valid() && r.value.alphabet == alphabet && r.value.size == size && r.value.data == data
    ensures !Consistent(data, alphabet.size, size) ==> r == Throws(IllegalArgument)
    ensures r.Throws? ==> r.exception == IllegalArgument || r.exception == IndexOutOfBounds
  {
    if !Consistent(data, alphabet.size, size) then Throws(IllegalArgument)
    else if !BasicAtEveryPosition(Motif(alphabet, size, data)) then Throws(IndexOutOfBounds)
    else Ok(Motif(alphabet, size, data))
  }

  /** Java's `dataConsistent`: for every position, scan the bits of that position code by code
    * until one is set. */
  method DataConsistent(data: seq<bool>, size: nat, ghost n: nat) returns (r: bool)
    requires |data| == n * size
    ensures r == Consistent(data, n, size)
  {
    var i := 0;
    while i < size
      invariant 0 <= i <= size
      invariant forall p :: 0 <= p < i ==> PositionAllowed(data, n, size, p)
    {
      var j := i;
      ghost var code := 0;
      var found := false;
      while j < |data|
        invariant 0 <= code <= n && j == code * size + i
        invariant !found ==> forall c :: 0 <= c < code ==> !Cell(data, n, size, c, i)
        invariant found ==> code < n && Cell(data, n, size, code, i)
        decreases |data| - j
      {
        MulCancel(code, n, size);
        CellIndex(code, n, size, i);
        if data[j] {
          found := true;
          break;
        }
        j := j + size;
        code := code + 1;
      }
      if !found {
        assert n * size < (code + 1) * size;
        MulCancel(n, code + 1, size);
        assert !PositionAllowed(data, n, size, i);
        return false;
      }
      assert 0 <= code < n && Cell(data, n, size, code, i);
      assert PositionAllowed(data, n, size, i);
      i := i + 1;
    }
    return true;
  }

  /** Setting the bit of one (code, position) pair changes the admission of that pair only. */
  lemma SetCell(data: seq<bool>, n: int, size: int, code: int, position: int)
    requires |data| == n * size && 0 <= code < n && 0 <= position < size
    ensures 0 <= code * size + position < |data|
    ensures forall c, p :: Cell(data[code * size + position := true], n, size, c, p)
                            == (Cell(data, n, size, c, p) || (c == code && p == position))
  {
    CellIndex(code, n, size, position);
    forall c, p
      ensures Cell(data[code * size + position := true], n, size, c, p)
              == (Cell(data, n, size, c, p) || (c == code && p == position))
    {
      if 0 <= c < n && 0 <= p < size {
        CellIndex(c, n, size, p);
        if c * size + p == code * size + position {
          CellInjective(c, p, code, position, size);
        }
      }
    }
  }

  /** Whether the wildcard of the `p`-th letter of `s` matches `code`. */
  predicate WildcardAdmits(s: Sequence, code: int, p: int)
    requires s.Valid() && 0 <= p < |s.codes|
  {
    code in s.alphabet.Matching(s.codes[p])
  }

  /** The admissions the constructor has written once it has handled the letters before `i` and
    * the first `j` codes of the wildcard of letter `i`. */
  predicate Written(data: seq<bool>, s: Sequence, i: int, j: int)
    requires s.Valid() && 0 <= i < |s.codes| && 0 <= j <= |s.alphabet.Matching(s.codes[i])|
    requires |data| == s.alphabet.size * |s.codes|
  {
    forall c, p :: 0 <= c < s.alphabet.size && 0 <= p < |s.codes| ==>
      Cell(data, s.alphabet.size, |s.codes|, c, p)
      == ((p < i && WildcardAdmits(s, c, p)) || (p == i && c in s.alphabet.Matching(s.codes[i])[..j]))
  }

  /** The admissions the constructor has written once it has handled the letters before `i`. */
  predicate WrittenBefore(data: seq<bool>, s: Sequence, i: int)
    requires s.Valid() && |data| == s.alphabet.size * |s.codes|
  {
    forall c, p :: 0 <= c < s.alphabet.size && 0 <= p < |s.codes| ==>
      Cell(data, s.alphabet.size, |s.codes|, c, p) == (p < i && WildcardAdmits(s, c, p))
  }

  lemma NothingWritten(data: seq<bool>, s: Sequence)
    requires s.Valid() && |data| == s.alphabet.size * |s.codes|
    requires forall k :: 0 <= k < |data| ==> !data[k]
    ensures WrittenBefore(data, s, 0)
  {
    forall c, p | 0 <= c < s.alphabet.size && 0 <= p < |s.codes|
      ensures !Cell(data, s.alphabet.size, |s.codes|, c, p)
    {
      CellIndex(c, s.alphabet.size, |s.codes|, p);
    }
  }

  lemma StartLetter(data: seq<bool>, s: Sequence, i: int)
    requires s.Valid() && 0 <= i < |s.codes| && |data| == s.alphabet.size * |s.codes|
    requires WrittenBefore(data, s, i)
    ensures Written(data, s, i, 0)
  {
  }

  lemma FinishLetter(data: seq<bool>, s: Sequence, i: int)
    requires s.Valid() && 0 <= i < |s.codes| && |data| == s.alphabet.size * |s.codes|
    requires Written(data, s, i, |s.alphabet.Matching(s.codes[i])|)
    ensures WrittenBefore(data, s, i + 1)
  {
    var wildcard := s.alphabet.Matching(s.codes[i]);
    assert wildcard[..|wildcard|] == wildcard;
  }

  /** Java's `Motif(sequence)`: position `i` admits exactly the codes the wildcard of the `i`-th
    * letter matches. */
  method FromSequence(s: Sequence) returns (m: Motif)
    requires s.Valid()
    ensures m.Valid() && m.alphabet == s.alphabet && m.size == |s.codes|
    ensures forall c, p :: 0 <= c < m.alphabet.size && 0 <= p < m.size ==>
              (m.Allows(c, p) <==> WildcardAdmits(s, c, p))
    ensures Consistent(m.data, m.alphabet.size, m.size) && BasicAtEveryPosition(m)
  {
    var n := s.alphabet.size;
    var size := |s.codes|;
    var data := new bool[n * size](_ => false);
    NothingWritten(data[..], s);
    for i := 0 to size
      invariant WrittenBefore(data[..], s, i)
    {
      var wildcard := s.alphabet.Matching(s.codes[i]);
      StartLetter(data[..], s, i);
      for j := 0 to |wildcard|
        invariant Written(data[..], s, i, j)
      {
        ghost var before := data[..];
        WriteCell(before, s, i, j);
        data[wildcard[j] * size + i] := true;
        assert data[..] == before[wildcard[j] * size + i := true];
      }
      FinishLetter(data[..], s, i);
    }
    m := Motif(s.alphabet, size, data[..]);
    assert WrittenBefore(m.data, s, size);
    forall p | 0 <= p < size
      ensures PositionAllowed(m.data, n, size, p)
    {
      var code := s.alphabet.Matching(s.codes[p])[0];
      assert Cell(m.data, n, size, code, p);
    }
    forall p | 0 <= p < size
      ensures |AllowedBasic(m, p)| >= 1
    {
      var code := s.alphabet.Matching(s.codes[p])[0];
      assert code in AllowedBasic(m, p);
    }
  }

  lemma WriteCell(data: seq<bool>, s: Sequence, i: int, j: int)
    requires s.Valid() && 0 <= i < |s.codes| && 0 <= j < |s.alphabet.Matching(s.codes[i])|
    requires |data| == s.alphabet.size * |s.codes|
    requires Written(data, s, i, j)
    ensures 0 <= s.alphabet.Matching(s.codes[i])[j] * |s.codes| + i < |data|
    ensures Written(data[s.alphabet.Matching(s.codes[i])[j] * |s.codes| + i := true], s, i, j + 1)
  {
    var wildcard := s.alphabet.Matching(s.codes[i]);
    var n, size := s.alphabet.size, |s.codes|;
    SetCell(data, n, size, wildcard[j], i);
    var updated := data[wildcard[j] * size + i := true];
    assert wildcard[..j + 1] == wildcard[..j] + [wildcard[j]];
    forall c, p | 0 <= c < n && 0 <= p < size
      ensures Cell(updated, n, size, c, p)
              == ((p < i && WildcardAdmits(s, c, p)) || (p == i && c in wildcard[..j + 1]))
    {
      assert Cell(data, n, size, c, p)
             == ((p < i && WildcardAdmits(s, c, p)) || (p == i && c in wildcard[..j]));
    }
  }

  /** The basic letters admitted at `position`. */
  function AllowedBasic(m: Motif, position: int): set<int>
    requires m.Valid() && 0 <= position < m.size
  {
    set c | 0 <= c < m.alphabet.basicSize && m.Allows(c, position)
  }

  /** Every position admits at least one basic letter, so its cost-table entry exists. */
  predicate BasicAtEveryPosition(m: Motif)
    requires m.Valid()
  {
    forall i :: 0 <= i < m.size ==> |AllowedBasic(m, i)| >= 1
  }

  /** Java's `allowedBasicCodes(position)`: counts the basic letters admitted at `position`. */
  method AllowedBasicCodes(m: Motif, position: int) returns (allowed: int)
    requires m.Valid() && 0 <= position < m.size
    ensures allowed == |AllowedBasic(m, position)|
    ensures 0 <= allowed <= m.alphabet.basicSize
  {
    var aSize := m.alphabet.basicSize;
    allowed := 0;
    for i := 0 to aSize
      invariant allowed == |set c | 0 <= c < i && m.Allows(c, position)|
      invariant 0 <= allowed <= i
    {
      ghost var before := set c | 0 <= c < i && m.Allows(c, position);
      if Cell(m.data, m.alphabet.size, m.size, i, position) {
        allowed := allowed + 1;
        assert (set c | 0 <= c < i + 1 && m.Allows(c, position)) == before + {i};
      } else {
        assert (set c | 0 <= c < i + 1 && m.Allows(c, position)) == before;
      }
    }
  }

  /** Java's `or`: the per-position union of two motifs of the same size. */
  function Or(m: Motif, other: Motif): (r: Outcome<Motif>)
    requires m.Valid() && other.Valid() && m.alphabet == other.alphabet
    ensures other.size != m.size ==> r == Throws(IllegalArgument)
    ensures other.size == m.size && Consistent(m.data, m.alphabet.size, m.size) && BasicAtEveryPosition(m) ==> r.Ok?
    ensures r.Ok? ==> r.value.Valid() && r.value.alphabet == m.alphabet && r.value.size == m.size
    ensures r.Ok? ==> forall c, p :: 0 <= c < m.alphabet.size && 0 <= p < m.size ==>
                        (r.value.Allows(c, p) <==> m.Allows(c, p) || other.Allows(c, p))
  {
    if other.size != m.size then Throws(IllegalArgument)
    else
      var union := seq(|m.data|, k requires 0 <= k < |m.data| => m.data[k] || other.data[k]);
      UnionCells(m.data, other.data, union, m.alphabet.size, m.size);
      var u := Motif(m.alphabet, m.size, union);
      assert u.Valid();
      if BasicAtEveryPosition(m) then
        WiderKeepsBasic(m, u);
        New(m.alphabet, m.size, union)
      else
        New(m.alphabet, m.size, union)
  }

  /** A motif admitting at least what `m` admits keeps a basic letter at every position. */
  lemma WiderKeepsBasic(m: Motif, u: Motif)
    requires m.Valid() && u.Valid() && u.alphabet == m.alphabet && u.size == m.size
    requires forall c, p :: 0 <= c < m.alphabet.size && 0 <= p < m.size && m.Allows(c, p) ==> u.Allows(c, p)
    requires BasicAtEveryPosition(m)
    ensures BasicAtEveryPosition(u)
  {
    forall p | 0 <= p < u.size
      ensures |AllowedBasic(u, p)| >= 1
    {
      var c :| c in AllowedBasic(m, p);
      assert c in AllowedBasic(u, p);
    }
  }

  lemma UnionCells(a: seq<bool>, b: seq<bool>, u: seq<bool>, n: int, size: int)
    requires |a| == |b| == |u| == n * size
    requires forall k :: 0 <= k < |u| ==> u[k] == (a[k] || b[k])
    ensures forall c, p :: Cell(u, n, size, c, p) == (Cell(a, n, size, c, p) || Cell(b, n, size, c, p))
    ensures Consistent(a, n, size) ==> Consistent(u, n, size)
  {
    forall c, p
      ensures Cell(u, n, size, c, p) == (Cell(a, n, size, c, p) || Cell(b, n, size, c, p))
    {
      if 0 <= c < n && 0 <= p < size {
        CellIndex(c, n, size, p);
      }
    }
    if Consistent(a, n, size) {
      forall p | 0 <= p < size
        ensures PositionAllowed(u, n, size, p)
      {
        assert PositionAllowed(a, n, size, p);
        var code :| 0 <= code < n && Cell(a, n, size, code, p);
        assert Cell(u, n, size, code, p);
      }
    }
  }

  /** The union does not depend on the order of the operands. */
  lemma OrCommutes(m: Motif, other: Motif)
    requires m.Valid() && other.Valid() && m.alphabet == other.alphabet
    ensures Or(m, other) == Or(other, m)
  {
    if m.size == other.size {
      var u1 := seq(|m.data|, k requires 0 <= k < |m.data| => m.data[k] || other.data[k]);
      var u2 := seq(|other.data|, k requires 0 <= k < |other.data| => other.data[k] || m.data[k]);
      assert u1 == u2;
    }
  }

  /** Java's `matches(sequence, from)`: rejects a window that leaves the sequence, and otherwise
    * tells whether every letter of the window is admitted at its position. */
  method Matches(m: Motif, s: seq<int>, from: int) returns (r: Outcome<bool>)
    requires m.Valid() && m.alphabet.AreCodes(s)
    ensures r.Throws? <==> from < 0 || from + m.size > |s|
    ensures r.Throws? ==> r.exception == IndexOutOfBounds
    ensures r.Ok? ==> (r.value <==> m.Fits(s[from..from + m.size]))
  {
    if from < 0 || from + m.size > |s| {
      return Throws(IndexOutOfBounds);
    }
    ghost var window := s[from..from + m.size];
    var pos := from;
    for i := 0 to m.size
      invariant pos == from + i
      invariant forall k :: 0 <= k < i ==> m.Allows(window[k], k)
    {
      assert s[pos] == window[i];
      if !m.Allows(s[pos], i) {
        return Ok(false);
      }
      pos := pos + 1;
    }
    return Ok(true);
  }

  /** Java's `equals`: same size, same alphabet and same admissions. */
  function Equals(m: Motif, other: Motif): (r: bool)
    ensures r <==> m == other
  {
    m.size == other.size && m.alphabet == other.alphabet && m.data == other.data
  }

  /** The forward mismatch mask of `code` after its first `upTo` positions are compiled: all ones,
    * with bit `j` cleared for each admitted position `j` below `upTo`. */
  function ForwardMaskUpTo(m: Motif, code: int, upTo: nat): Long
    requires m.Valid() && m.alphabet.IsCode(code) && upTo <= m.size
  {
    if upTo == 0 then AllOnes
    else if m.Allows(code, upTo - 1) then And(ForwardMaskUpTo(m, code, upTo - 1), Not(OneAt(upTo - 1)))
    else ForwardMaskUpTo(m, code, upTo - 1)
  }

  /** The reversed mismatch mask of `code` after its first `upTo` positions are compiled:
    * position `j` of the motif lands on bit `size - 1 - j`. */
  function ReverseMaskUpTo(m: Motif, code: int, upTo: nat): Long
    requires m.Valid() && m.alphabet.IsCode(code) && upTo <= m.size
  {
    if upTo == 0 then AllOnes
    else if m.Allows(code, upTo - 1) then And(ReverseMaskUpTo(m, code, upTo - 1), Not(OneAt(m.size - upTo)))
    else ReverseMaskUpTo(m, code, upTo - 1)
  }

  /** Bit `j` of the partial forward mask is clear exactly when `j < upTo` and `code` is admitted
    * at `j`. */
  lemma {:induction false} ForwardMaskUpToBits(m: Motif, code: int, upTo: nat)
    requires m.Valid() && m.alphabet.IsCode(code) && upTo <= m.size <= 64
    ensures forall j :: 0 <= j < 64 ==> ForwardMaskUpTo(m, code, upTo)[j] == !(j < upTo && m.Allows(code, j))
  {
    if upTo > 0 {
      ForwardMaskUpToBits(m, code, upTo - 1);
      AndBits(ForwardMaskUpTo(m, code, upTo - 1), Not(OneAt(upTo - 1)));
      NotBits(OneAt(upTo - 1));
      OneAtBits(upTo - 1);
    }
  }

  /** Bit `b` of the partial reversed mask is clear exactly when it is `size - 1 - j` for some
    * `j < upTo` at which `code` is admitted. */
  lemma {:induction false} ReverseMaskUpToBits(m: Motif, code: int, upTo: nat)
    requires m.Valid() && m.alphabet.IsCode(code) && upTo <= m.size <= 64
    ensures forall b :: 0 <= b < 64 ==>
              ReverseMaskUpTo(m, code, upTo)[b] == !(m.size - upTo <= b < m.size && m.Allows(code, m.size - 1 - b))
  {
    if upTo > 0 {
      ReverseMaskUpToBits(m, code, upTo - 1);
      AndBits(ReverseMaskUpTo(m, code, upTo - 1), Not(OneAt(m.size - upTo)));
      NotBits(OneAt(m.size - upTo));
      OneAtBits(m.size - upTo);
    }
  }

  /** Bit `j < size` of the forward mask of `code` is clear iff the motif admits `code` at `j`;
    * every higher bit is set. */
  function ForwardMask(m: Motif, code: int): (r: Long)
    requires m.Valid() && m.alphabet.IsCode(code) && m.size < 64
    ensures forall j :: 0 <= j < 64 ==> (!r[j] <==> j < m.size && m.Allows(code, j))
  {
    ForwardMaskUpToBits(m, code, m.size);
    ForwardMaskUpTo(m, code, m.size)
  }

  /** Bit `size - 1 - j` of the reversed mask of `code` is clear iff the motif admits `code` at `j`;
    * every bit at or above `size` is set. */
  function ReverseMask(m: Motif, code: int): (r: Long)
    requires m.Valid() && m.alphabet.IsCode(code) && m.size < 64
    ensures forall j :: 0 <= j < m.size ==> (!r[m.size - 1 - j] <==> m.Allows(code, j))
    ensures forall b :: m.size <= b < 64 ==> r[b]
  {
    ReverseMaskUpToBits(m, code, m.size);
    ReverseMaskUpTo(m, code, m.size)
  }

  /** The mask-building loop of Java's `toBitapPattern`, for a motif shorter than 64: every mask
    * starts as all ones and the bit of each admitted (code, position) is cleared. */
  method BuildMasks(m: Motif) returns (patternMask: seq<Long>, reversePatternMask: seq<Long>)
    requires m.Valid() && m.size < 64
    ensures |patternMask| == |reversePatternMask| == m.alphabet.size
    ensures forall c :: 0 <= c < m.alphabet.size ==>
              patternMask[c] == ForwardMask(m, c) && reversePatternMask[c] == ReverseMask(m, c)
  {
    var aSize := m.alphabet.size;
    var forward := new Long[aSize](_ => AllOnes);
    var reverse := new Long[aSize](_ => AllOnes);
    var p := 0;
    for i := 0 to aSize
      invariant p == i * m.size
      invariant forall c :: 0 <= c < i ==>
                  forward[c] == ForwardMaskUpTo(m, c, m.size) && reverse[c] == ReverseMaskUpTo(m, c, m.size)
      invariant forall c :: i <= c < aSize ==> forward[c] == AllOnes && reverse[c] == AllOnes
    {
      CompileCode(m, forward, reverse, i, p);
      p := p + m.size;
    }
    patternMask := forward[..];
    reversePatternMask := reverse[..];
  }

  /** The inner loop of the mask building: walks the bits of `code`, which start at flat index `p`,
    * and clears the masks of `code` at each admitted position. */
  method CompileCode(m: Motif, forward: array<Long>, reverse: array<Long>, code: int, p: int)
    requires m.Valid() && m.size < 64 && m.alphabet.IsCode(code) && p == code * m.size
    requires forward != reverse && forward.Length == reverse.Length == m.alphabet.size
    requires forward[code] == AllOnes && reverse[code] == AllOnes
    modifies forward, reverse
    ensures forward[code] == ForwardMaskUpTo(m, code, m.size) && reverse[code] == ReverseMaskUpTo(m, code, m.size)
    ensures forall c :: 0 <= c < forward.Length && c != code ==> forward[c] == old(forward[c]) && reverse[c] == old(reverse[c])
  {
    var p := p;
    for j := 0 to m.size
      invariant p == code * m.size + j
      invariant forward[code] == ForwardMaskUpTo(m, code, j) && reverse[code] == ReverseMaskUpTo(m, code, j)
      invariant forall c :: 0 <= c < forward.Length && c != code ==> forward[c] == old(forward[c]) && reverse[c] == old(reverse[c])
    {
      CellIndex(code, m.alphabet.size, m.size, j);
      if m.data[p] {
        forward[code] := And(forward[code], Not(OneAt(j)));
        reverse[code] := And(reverse[code], Not(OneAt(m.size - j - 1)));
      }
      p := p + 1;
    }
  }
}
