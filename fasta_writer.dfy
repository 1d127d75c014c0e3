/** The byte layout of a FASTA record as `FastaWriter.writeRaw` emits it: a header line, then the
  * sequence wrapped into lines of at most `maxLength` bytes. */
module FastaWriters {
  import opened Wrappers
  import opened Nucleotides

  /** The line length a writer uses unless given one. */
  const DefaultMaxLength := 75

  /** The bytes of `'>'` and `'\n'`. */
  const HeaderMark: Byte := 62
  const Newline: Byte := 10

  /** The header line: `'>'`, the description bytes (none for a `null` description), `'\n'`. */
  function Header(description: Option<seq<Byte>>): seq<Byte> {
    [HeaderMark] + (if description.Some? then description.value else []) + [Newline]
  }

  /** The pieces the sequence is cut into: `maxLength` bytes at a time, the rest in the last
    * piece, and one empty piece for an empty sequence. */
  function Chunks(s: seq<Byte>, maxLength: int): (r: seq<seq<Byte>>)
    requires maxLength > 0
    ensures |r| >= 1
    decreases |s|
  {
    if |s| <= maxLength then [s] else [s[..maxLength]] + Chunks(s[maxLength..], maxLength)
  }

  /** Each piece followed by a line break. */
  function JoinLines(lines: seq<seq<Byte>>): seq<Byte> {
    if lines == [] then [] else lines[0] + [Newline] + JoinLines(lines[1..])
  }

  /** The pieces laid end to end. */
  function Flatten(lines: seq<seq<Byte>>): seq<Byte> {
    if lines == [] then [] else lines[0] + Flatten(lines[1..])
  }

  /** The sequence part of a record from byte `pointer` on: the next line of at most
    * `maxLength` bytes and its line break, then the rest. */
  function BodyFrom(s: seq<Byte>, pointer: nat, maxLength: int): seq<Byte>
    requires maxLength > 0 && pointer <= |s|
    decreases |s| - pointer
  {
    if |s| - pointer <= maxLength then s[pointer..] + [Newline]
    else s[pointer..pointer + maxLength] + [Newline] + BodyFrom(s, pointer + maxLength, maxLength)
  }

  /** The sequence part of a record. */
  function Body(s: seq<Byte>, maxLength: int): seq<Byte>
    requires maxLength > 0
  {
    BodyFrom(s, 0, maxLength)
  }

  /** A whole record. */
  function Record(description: Option<seq<Byte>>, s: seq<Byte>, maxLength: int): seq<Byte>
    requires maxLength > 0
  {
    Header(description) + Body(s, maxLength)
  }

  /** How the pieces of a wrapped sequence look: at most `maxLength` bytes each, exactly
    * `maxLength` for all but the last, and the last empty only when it is the only one. */
  predicate Wrapped(lines: seq<seq<Byte>>, maxLength: int) {
    && |lines| >= 1
    && (forall i :: 0 <= i < |lines| ==> |lines[i]| <= maxLength)
    && (forall i :: 0 <= i < |lines| - 1 ==> |lines[i]| == maxLength)
    && (|lines| > 1 ==> lines[|lines| - 1] != [])
  }

  /** The body is the pieces, each followed by a line break. */
  lemma {:induction false} BodyLines(s: seq<Byte>, pointer: nat, maxLength: int)
    requires maxLength > 0 && pointer <= |s|
    ensures BodyFrom(s, pointer, maxLength) == JoinLines(Chunks(s[pointer..], maxLength))
    decreases |s| - pointer
  {
    var rest := s[pointer..];
    if |rest| <= maxLength {
      assert JoinLines([rest]) == rest + [Newline] + JoinLines([]);
    } else {
      BodyLines(s, pointer + maxLength, maxLength);
      var lines := [rest[..maxLength]] + Chunks(rest[maxLength..], maxLength);
      assert lines[1..] == Chunks(rest[maxLength..], maxLength);
      assert rest[..maxLength] == s[pointer..pointer + maxLength];
      assert rest[maxLength..] == s[pointer + maxLength..];
    }
  }

  /** The sequence part of a record is the wrapped pieces of the sequence, each on its own
    * line. */
  lemma BodyIsChunks(s: seq<Byte>, maxLength: int)
    requires maxLength > 0
    ensures Body(s, maxLength) == JoinLines(Chunks(s, maxLength))
  {
    BodyLines(s, 0, maxLength);
    assert s[0..] == s;
  }

  /** While writing: `output` followed by the body from `pointer` on is the finished `target`. */
  predicate Pending(output: seq<Byte>, s: seq<Byte>, pointer: nat, maxLength: int, target: seq<Byte>)
    requires maxLength > 0
  {
    pointer <= |s| && output + BodyFrom(s, pointer, maxLength) == target
  }

  /** One turn of the writing loop: after the next line and its line break, either the rest of
    * the body is still pending or the record is finished. */
  lemma WriteStep(output: seq<Byte>, s: seq<Byte>, pointer: nat, maxLength: int, target: seq<Byte>)
    requires maxLength > 0 && Pending(output, s, pointer, maxLength, target)
    ensures pointer + maxLength < |s| ==>
              Pending(output + s[pointer..pointer + maxLength] + [Newline], s, pointer + maxLength, maxLength, target)
    ensures pointer + maxLength >= |s| ==> output + s[pointer..] + [Newline] == target
  {
    if pointer + maxLength < |s| {
      var line := s[pointer..pointer + maxLength] + [Newline];
      assert (output + line) + BodyFrom(s, pointer + maxLength, maxLength) == target;
    }
  }

  /** The pieces put back together are the sequence. */
  lemma {:induction false} ChunksFlatten(s: seq<Byte>, maxLength: int)
    requires maxLength > 0
    ensures Flatten(Chunks(s, maxLength)) == s
    decreases |s|
  {
    if |s| <= maxLength {
      assert Flatten([s]) == s + Flatten([]);
    } else {
      var rest := Chunks(s[maxLength..], maxLength);
      ChunksFlatten(s[maxLength..], maxLength);
      assert ([s[..maxLength]] + rest)[1..] == rest;
      assert s == s[..maxLength] + s[maxLength..];
    }
  }

  /** The pieces have the wrapped shape. */
  lemma {:induction false} ChunksWrapped(s: seq<Byte>, maxLength: int)
    requires maxLength > 0
    ensures Wrapped(Chunks(s, maxLength), maxLength)
    decreases |s|
  {
    if |s| > maxLength {
      var rest := Chunks(s[maxLength..], maxLength);
      ChunksWrapped(s[maxLength..], maxLength);
      var lines := [s[..maxLength]] + rest;
      assert forall i :: 1 <= i < |lines| ==> lines[i] == rest[i - 1];
    }
  }

  /** There is one line for an empty sequence and otherwise `ceil(|s| / maxLength)` lines: the
    * fewest lines of `maxLength` bytes that hold the sequence. */
  lemma {:induction false} ChunksCount(s: seq<Byte>, maxLength: int)
    requires maxLength > 0
    ensures |s| == 0 ==> |Chunks(s, maxLength)| == 1
    ensures |s| > 0 ==> (|Chunks(s, maxLength)| - 1) * maxLength < |s| <= |Chunks(s, maxLength)| * maxLength
    decreases |s|
  {
    if |s| > maxLength {
      var c := |Chunks(s[maxLength..], maxLength)|;
      ChunksCount(s[maxLength..], maxLength);
      assert |Chunks(s, maxLength)| == c + 1;
      assert (c + 1) * maxLength == c * maxLength + maxLength;
      assert c * maxLength == (c - 1) * maxLength + maxLength;
    }
  }

  /** The wrapped shape fixes the pieces: any wrapped cut of `s` is the one the writer makes. */
  lemma {:induction false} WrappedUnique(lines: seq<seq<Byte>>, s: seq<Byte>, maxLength: int)
    requires maxLength > 0 && Wrapped(lines, maxLength) && Flatten(lines) == s
    ensures lines == Chunks(s, maxLength)
    decreases |lines|
  {
    if |lines| == 1 {
      assert Flatten(lines[1..]) == [];
      assert s == lines[0];
      assert lines == [s];
    } else {
      var rest := lines[1..];
      assert Flatten(lines) == lines[0] + Flatten(rest);
      assert forall i :: 0 <= i < |rest| ==> rest[i] == lines[i + 1];
      assert Wrapped(rest, maxLength);
      assert s[..maxLength] == lines[0] && s[maxLength..] == Flatten(rest);
      WrappedUnique(rest, s[maxLength..], maxLength);
      if |rest| == 1 {
        assert |s| > maxLength;
      } else {
        assert |Flatten(rest)| >= |rest[0]| == maxLength > 0 by {
          assert Flatten(rest) == rest[0] + Flatten(rest[1..]);
        }
      }
      assert lines == [lines[0]] + rest;
    }
  }

  /** Java's `FastaWriter` over an output stream, whose bytes so far are `output`. */
  class FastaWriter {
    const maxLength: int
    var output: seq<Byte>

    /** The writers built with a file name, a file or a stream alone. */
    constructor Default()
      ensures maxLength == DefaultMaxLength && output == []
    {
      maxLength := DefaultMaxLength;
      output := [];
    }

    /** The writers built with an explicit line length. */
    constructor (maxLength: int)
      ensures this.maxLength == maxLength && output == []
    {
      this.maxLength := maxLength;
      output := [];
    }

    /** Java's `writeRaw(description, sequence)`: appends the header, then the sequence in lines
      * of `maxLength` bytes, the last line possibly shorter, and one empty line for an empty
      * sequence. */
    method WriteRaw(description: Option<seq<Byte>>, sequence: seq<Byte>)
      requires maxLength > 0
      modifies this
      ensures output == old(output) + Record(description, sequence, maxLength)
    {
      output := output + [HeaderMark];
      if description.Some? {
        output := output + description.value;
      }
      output := output + [Newline];
      assert output == old(output) + Header(description);
      WriteLines(sequence);
    }

    /** The `do`-`while` loop of `writeRaw`: appends `Math.min(seq.length - pointer, maxLength)`
      * bytes from `pointer` on and a line break, then moves `pointer` on by `maxLength`, until
      * `pointer` reaches the end of the sequence. */
    method WriteLines(sequence: seq<Byte>)
      requires maxLength > 0
      modifies this
      ensures output == old(output) + Body(sequence, maxLength)
    {
      ghost var target := output + Body(sequence, maxLength);
      var pointer := 0;
      while true
        invariant pointer == 0 || pointer < |sequence|
        invariant Pending(output, sequence, pointer, maxLength, target)
        decreases |sequence| - pointer
      {
        WriteStep(output, sequence, pointer, maxLength, target);
        if pointer + maxLength < |sequence| {
          output := output + sequence[pointer..pointer + maxLength] + [Newline];
        } else {
          output := output + sequence[pointer..] + [Newline];
        }
        pointer := pointer + maxLength;
        if !(|sequence| > pointer) {
          break;
        }
      }
    }
  }
}
