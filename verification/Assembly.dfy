/** Writing chunks, or prefixes of them, at their offsets into one output file. */
module Assembly {
  import opened Common
  import opened Chunking

  /** A position of the output file: a byte that was written, or the zero of a gap left below one. */
  datatype Cell = Gap | Data(value: byte)

  type OutFile = seq<Cell>

  /** What reading the file gives. */
  function Content(f: OutFile): (bytes: seq<byte>)
    ensures |bytes| == |f|
  {
    seq(|f|, p requires 0 <= p < |f| => if f[p].Gap? then 0 else f[p].value)
  }

  predicate Covered(f: OutFile, p: nat) {
    p < |f| && f[p].Data?
  }

  /** Writing past the end leaves a gap; writing nothing changes nothing, not even the length. */
  function WriteAt(f: OutFile, offset: nat, data: seq<byte>): OutFile {
    if data == [] then f
    else
      var size := if |f| < offset + |data| then offset + |data| else |f|;
      seq(size, p requires 0 <= p < size =>
        if offset <= p < offset + |data| then Data(data[p - offset])
        else if p < |f| then f[p] else Gap)
  }

  /** Every written byte is the source's byte at that position; the file ends with a written byte. */
  ghost predicate Faithful(f: OutFile, src: seq<byte>) {
    && |f| <= |src|
    && (forall p: nat | Covered(f, p) :: f[p].value == src[p])
    && (f != [] ==> Covered(f, |f| - 1))
  }

  /** All of chunk i has been written. */
  ghost predicate HasWhole(f: OutFile, src: seq<byte>, chunkSize: nat, i: nat)
    requires HasChunk(src, chunkSize, i)
  {
    forall p: nat | i * chunkSize <= p < i * chunkSize + |ChunkAt(src, chunkSize, i)| :: Covered(f, p)
  }

  /** Writing the first n bytes of chunk i keeps the file faithful and covers exactly n more positions. */
  lemma PrefixWriteFaithful(f: OutFile, src: seq<byte>, chunkSize: nat, i: nat, n: nat)
    requires chunkSize > 0 && HasChunk(src, chunkSize, i) && n <= |ChunkAt(src, chunkSize, i)|
    requires Faithful(f, src)
    ensures var f' := WriteAt(f, i * chunkSize, ChunkAt(src, chunkSize, i)[..n]);
            && Faithful(f', src)
            && forall p: nat :: Covered(f', p) <==> Covered(f, p) || i * chunkSize <= p < i * chunkSize + n
  {
    ChunkBounds(src, chunkSize, i);
    SliceWriteFaithful(f, src, i * chunkSize, Min(i * chunkSize + chunkSize, |src|), n);
  }

  /** The same for the first n bytes of any part of the source. */
  lemma SliceWriteFaithful(f: OutFile, src: seq<byte>, offset: nat, end: nat, n: nat)
    requires offset + n <= end <= |src| && Faithful(f, src)
    ensures var f' := WriteAt(f, offset, src[offset..end][..n]);
            && Faithful(f', src)
            && forall p: nat :: Covered(f', p) <==> Covered(f, p) || offset <= p < offset + n
  {
    PlainWriteFaithful(f, src, offset, n);
    SliceTake(src, offset, end, n);
  }

  lemma SliceTake<T>(s: seq<T>, lo: nat, hi: nat, n: nat)
    requires lo + n <= hi <= |s|
    ensures s[lo..hi][..n] == s[lo..lo + n]
  {
  }

  lemma PlainWriteFaithful(f: OutFile, src: seq<byte>, offset: nat, n: nat)
    requires offset + n <= |src| && Faithful(f, src)
    ensures var f' := WriteAt(f, offset, src[offset..offset + n]);
            && Faithful(f', src)
            && forall p: nat :: Covered(f', p) <==> Covered(f, p) || offset <= p < offset + n
  {
    if n > 0 {
      var f' := WriteAt(f, offset, src[offset..offset + n]);
      forall p: nat
        ensures Covered(f', p) <==> Covered(f, p) || offset <= p < offset + n
        ensures Covered(f', p) ==> f'[p].value == src[p]
      {
      }
    }
  }

  /** A faithful file that holds every chunk whole reads back as the source file. */
  lemma WholeFile(f: OutFile, src: seq<byte>, chunkSize: nat)
    requires chunkSize > 0 && Faithful(f, src)
    requires forall i: nat | i < NumChunks(|src|, chunkSize) ::
               HasChunk(src, chunkSize, i) && HasWhole(f, src, chunkSize, i)
    ensures Content(f) == src
  {
    forall p: nat | p < |src| ensures Covered(f, p) {
      var i := ChunkOfPosition(src, chunkSize, p);
      assert HasWhole(f, src, chunkSize, i);
    }
    if |src| > 0 {
      assert Covered(f, |src| - 1);
    }
    assert |Content(f)| == |src|;
    forall p: nat | p < |src| ensures Content(f)[p] == src[p] {
      assert Covered(f, p);
    }
  }

  // ---------------------------------------------------------------- any sequence of writes

  /** A request to write the first `length` bytes of a chunk. */
  datatype Write = Write(chunk: nat, length: nat)

  ghost predicate Sensible(w: Write, src: seq<byte>, chunkSize: nat) {
    HasChunk(src, chunkSize, w.chunk) && w.length <= |ChunkAt(src, chunkSize, w.chunk)|
  }

  ghost predicate AllSensible(writes: seq<Write>, src: seq<byte>, chunkSize: nat) {
    forall k | 0 <= k < |writes| :: Sensible(writes[k], src, chunkSize)
  }

  ghost function Assemble(writes: seq<Write>, src: seq<byte>, chunkSize: nat): OutFile
    requires AllSensible(writes, src, chunkSize)
  {
    if writes == [] then []
    else
      var w := writes[|writes| - 1];
      WriteAt(Assemble(writes[..|writes| - 1], src, chunkSize),
              w.chunk * chunkSize, ChunkAt(src, chunkSize, w.chunk)[..w.length])
  }

  ghost predicate Touches(w: Write, chunkSize: nat, p: nat) {
    w.chunk * chunkSize <= p < w.chunk * chunkSize + w.length
  }

  ghost predicate Touched(writes: seq<Write>, chunkSize: nat, p: nat) {
    exists k :: 0 <= k < |writes| && Touches(writes[k], chunkSize, p)
  }

  lemma TouchedAppend(writes: seq<Write>, chunkSize: nat, p: nat)
    requires writes != []
    ensures Touched(writes, chunkSize, p)
            <==> Touched(writes[..|writes| - 1], chunkSize, p) || Touches(writes[|writes| - 1], chunkSize, p)
  {
    var before := writes[..|writes| - 1];
    if Touched(before, chunkSize, p) {
      var k :| 0 <= k < |before| && Touches(before[k], chunkSize, p);
      assert Touches(writes[k], chunkSize, p);
    }
    if Touched(writes, chunkSize, p) {
      var k :| 0 <= k < |writes| && Touches(writes[k], chunkSize, p);
      assert k < |before| ==> Touches(before[k], chunkSize, p);
    }
  }

  /**
   After any sequence of prefix writes, in any order and with repeats, the positions covered are
   exactly those some write touches, each holds the source's byte, and the file never outgrows the source.
   */
  lemma {:induction false} AssembledExactly(writes: seq<Write>, src: seq<byte>, chunkSize: nat)
    requires chunkSize > 0 && AllSensible(writes, src, chunkSize)
    ensures Faithful(Assemble(writes, src, chunkSize), src)
    ensures forall p: nat :: Covered(Assemble(writes, src, chunkSize), p) <==> Touched(writes, chunkSize, p)
  {
    if writes != [] {
      var before, w := writes[..|writes| - 1], writes[|writes| - 1];
      AssembledExactly(before, src, chunkSize);
      PrefixWriteFaithful(Assemble(before, src, chunkSize), src, chunkSize, w.chunk, w.length);
      forall p: nat
        ensures Covered(Assemble(writes, src, chunkSize), p) <==> Touched(writes, chunkSize, p)
      {
        TouchedAppend(writes, chunkSize, p);
        assert Touched(before, chunkSize, p) <==> Covered(Assemble(before, src, chunkSize), p);
      }
    }
  }

  /** Once every chunk has had one full write the file is the source, whatever else was written. */
  lemma AssemblyComplete(writes: seq<Write>, src: seq<byte>, chunkSize: nat)
    requires chunkSize > 0 && AllSensible(writes, src, chunkSize)
    requires forall i: nat | i < NumChunks(|src|, chunkSize) ::
               HasChunk(src, chunkSize, i) && Write(i, |ChunkAt(src, chunkSize, i)|) in writes
    ensures Content(Assemble(writes, src, chunkSize)) == src
  {
    AssembledExactly(writes, src, chunkSize);
    var f := Assemble(writes, src, chunkSize);
    forall i: nat | i < NumChunks(|src|, chunkSize)
      ensures HasWhole(f, src, chunkSize, i)
    {
      var w := Write(i, |ChunkAt(src, chunkSize, i)|);
      var k :| 0 <= k < |writes| && writes[k] == w;
      forall p: nat | i * chunkSize <= p < i * chunkSize + w.length ensures Covered(f, p) {
        assert Touches(writes[k], chunkSize, p);
        assert Touched(writes, chunkSize, p);
      }
    }
    WholeFile(f, src, chunkSize);
  }

  // ---------------------------------------------------------------- writeAndVerifyChunk

  /** One call of os.File.WriteAt: how many bytes it wrote, and whether it reported an error. */
  datatype Attempt = Attempt(written: nat, failed: bool)

  predicate Clean(a: Attempt, data: seq<byte>) {
    a.written == |data| && !a.failed
  }

  ghost predicate Attempts(attempts: seq<Attempt>, data: seq<byte>) {
    forall k | 0 <= k < |attempts| :: attempts[k].written <= |data|
  }

  /** Successive writes at the same offset, each of as much of the data as its attempt managed. */
  ghost function WriteAll(f: OutFile, offset: nat, data: seq<byte>, attempts: seq<Attempt>): OutFile
    requires Attempts(attempts, data)
  {
    if attempts == [] then f
    else
      var last := |attempts| - 1;
      WriteAt(WriteAll(f, offset, data, attempts[..last]), offset, data[..attempts[last].written])
  }

  /**
   Writing a chunk of the source keeps the file faithful whatever happens, loses nothing, and
   leaves the chunk whole as soon as one attempt was clean.
   */
  lemma {:induction false} ChunkWriteSafe(f: OutFile, src: seq<byte>, chunkSize: nat, i: nat, attempts: seq<Attempt>)
    requires chunkSize > 0 && HasChunk(src, chunkSize, i) && Faithful(f, src)
    requires Attempts(attempts, ChunkAt(src, chunkSize, i))
    ensures var data := ChunkAt(src, chunkSize, i);
            var f' := WriteAll(f, i * chunkSize, data, attempts);
            && Faithful(f', src)
            && (forall p: nat | Covered(f, p) :: Covered(f', p))
            && ((exists k :: 0 <= k < |attempts| && Clean(attempts[k], data)) ==> HasWhole(f', src, chunkSize, i))
  {
    if attempts != [] {
      var data := ChunkAt(src, chunkSize, i);
      var last := |attempts| - 1;
      var before := attempts[..last];
      ChunkWriteSafe(f, src, chunkSize, i, before);
      PrefixWriteFaithful(WriteAll(f, i * chunkSize, data, before), src, chunkSize, i, attempts[last].written);
      assert forall k | 0 <= k < last :: attempts[k] == before[k];
    }
  }

  lemma WriteAllAppend(f: OutFile, offset: nat, data: seq<byte>, attempts: seq<Attempt>, a: Attempt)
    requires Attempts(attempts, data) && a.written <= |data|
    ensures Attempts(attempts + [a], data)
    ensures WriteAll(f, offset, data, attempts + [a])
            == WriteAt(WriteAll(f, offset, data, attempts), offset, data[..a.written])
  {
    assert (attempts + [a])[..|attempts|] == attempts;
  }

  lemma AttemptsFront(data: seq<byte>, a: Attempt, rest: seq<Attempt>)
    requires a.written <= |data| && Attempts(rest, data)
    ensures Attempts([a] + rest, data)
  {
  }

  lemma {:induction false} WriteAllFront(f: OutFile, offset: nat, data: seq<byte>, a: Attempt, rest: seq<Attempt>)
    requires a.written <= |data| && Attempts(rest, data)
    ensures Attempts([a] + rest, data)
    ensures WriteAll(f, offset, data, [a] + rest) == WriteAll(WriteAt(f, offset, data[..a.written]), offset, data, rest)
    decreases |rest|
  {
    AttemptsFront(data, a, rest);
    var all := [a] + rest;
    if rest == [] {
      assert all[..0] == [];
    } else {
      var before := rest[..|rest| - 1];
      assert all[..|all| - 1] == [a] + before;
      assert all[|all| - 1] == rest[|rest| - 1];
      WriteAllFront(f, offset, data, a, before);
    }
  }

  /**
   What one call of writeAndVerifyChunk does with data that is not oversized: some attempts, at most
   `most`, of which only the last can be clean; success if and only if it is, and failure only after all.
   */
  ghost predicate OneCall(
    f: OutFile, offset: nat, data: seq<byte>, most: nat, attempts: seq<Attempt>, f': OutFile, ok: bool)
  {
    && 1 <= |attempts| <= most
    && Attempts(attempts, data)
    && f' == WriteAll(f, offset, data, attempts)
    && (forall k | 0 <= k < |attempts| - 1 :: !Clean(attempts[k], data))
    && (ok <==> Clean(attempts[|attempts| - 1], data))
    && (!ok ==> |attempts| == most)
  }

  /** A call that goes on after failed attempts: one more, and the call may end there. */
  lemma OneMoreAttempt(f: OutFile, offset: nat, data: seq<byte>, most: nat, failed: seq<Attempt>, a: Attempt)
    requires Attempts(failed, data) && a.written <= |data| && |failed| < most
    requires Clean(a, data) || |failed| + 1 == most
    requires forall k | 0 <= k < |failed| :: !Clean(failed[k], data)
    ensures OneCall(f, offset, data, most, failed + [a],
                    WriteAt(WriteAll(f, offset, data, failed), offset, data[..a.written]), Clean(a, data))
  {
    WriteAllAppend(f, offset, data, failed, a);
  }

  lemma OnlyAttempt(f: OutFile, offset: nat, data: seq<byte>, most: nat, attempts: seq<Attempt>)
    requires |attempts| == 1 && attempts[0].written <= |data| && most > 0
    requires Clean(attempts[0], data) || most == 1
    ensures OneCall(f, offset, data, most, attempts,
                    WriteAt(f, offset, data[..attempts[0].written]), Clean(attempts[0], data))
  {
    OneMoreAttempt(f, offset, data, most, [], attempts[0]);
    assert attempts == [] + [attempts[0]];
  }

  /** Nothing but failed attempts so far. */
  ghost predicate AllFailed(f: OutFile, offset: nat, data: seq<byte>, attempts: seq<Attempt>, f': OutFile) {
    && Attempts(attempts, data)
    && f' == WriteAll(f, offset, data, attempts)
    && forall k | 0 <= k < |attempts| :: !Clean(attempts[k], data)
  }

  /** One more attempt, after which the call goes on or ends. */
  lemma NextAttempt(
    f: OutFile, offset: nat, data: seq<byte>, most: nat, attempts: seq<Attempt>, f': OutFile, a: Attempt)
    requires AllFailed(f, offset, data, attempts, f') && a.written <= |data| && |attempts| < most
    ensures var next := WriteAt(f', offset, data[..a.written]);
            && (!Clean(a, data) ==> AllFailed(f, offset, data, attempts + [a], next))
            && (Clean(a, data) || |attempts| + 1 == most ==>
                  OneCall(f, offset, data, most, attempts + [a], next, Clean(a, data)))
  {
    WriteAllAppend(f, offset, data, attempts, a);
    if Clean(a, data) || |attempts| + 1 == most {
      OneMoreAttempt(f, offset, data, most, attempts, a);
    }
  }

  /** A failed attempt before a call that may make one attempt less. */
  lemma FirstFailed(f: OutFile, offset: nat, data: seq<byte>, most: nat, attempts: seq<Attempt>, f': OutFile, ok: bool)
    requires most > 0 && attempts != [] && attempts[0].written <= |data| && !Clean(attempts[0], data)
    requires OneCall(WriteAt(f, offset, data[..attempts[0].written]), offset, data, most - 1, attempts[1..], f', ok)
    ensures OneCall(f, offset, data, most, attempts, f', ok)
  {
    var a, rest := attempts[0], attempts[1..];
    assert attempts == [a] + rest;
    assert forall k | 0 < k < |attempts| :: attempts[k] == rest[k - 1];
    WriteAllFront(f, offset, data, a, rest);
  }

  datatype WriteError = Oversized | WriteFailed | Incomplete

  /** The output file; a write may fail or stop short, and then has written some prefix. */
  class Output {
    var file: OutFile
    ghost var log: seq<Attempt>    // what every write so far came to

    constructor ()
      ensures file == [] && log == []
    {
      file, log := [], [];
    }

    method WriteAtOffset(data: seq<byte>, offset: nat) returns (a: Attempt)
      modifies this
      ensures a.written <= |data| && log == old(log) + [a]
      ensures file == WriteAt(old(file), offset, data[..a.written])
    {
      var written :| 0 <= written <= |data|;
      var failed := *;
      a := Attempt(written, failed);
      file := WriteAt(file, offset, data[..written]);
      log := log + [a];
    }

    /**
     Up to three attempts, stopping at the first clean one; oversized data is not written at all.
     `attempts` are the writes it made, and the error tells what the last of them came to.
     */
    method WriteAndVerifyChunk(data: seq<byte>, chunkIndex: nat, chunkSize: nat)
      returns (r: Result<(), WriteError>, ghost attempts: seq<Attempt>)
      modifies this
      ensures log == old(log) + attempts
      ensures if |data| > chunkSize then attempts == [] && file == old(file) && r == Err(Oversized)
              else OneCall(old(file), chunkIndex * chunkSize, data, 3, attempts, file, r.Ok?)
      ensures r == Err(Oversized) ==> |data| > chunkSize
      ensures r == Err(WriteFailed) ==> |attempts| == 3 && attempts[2].failed
      ensures r == Err(Incomplete) ==> |attempts| == 3 && !attempts[2].failed && attempts[2].written < |data|
    {
      attempts := [];
      var startOffset := chunkIndex * chunkSize;
      if |data| > chunkSize {
        return Err(Oversized), [];
      }
      var retries := 0;
      while true
        invariant |attempts| == retries < 3 && log == old(log) + attempts
        invariant AllFailed(old(file), startOffset, data, attempts, file)
        decreases 3 - retries
      {
        ghost var before := file;
        var a := WriteAtOffset(data, startOffset);
        NextAttempt(old(file), startOffset, data, 3, attempts, before, a);
        attempts := attempts + [a];
        if a.failed {
          if retries < 2 {
            retries := retries + 1;
            continue;
          }
          return Err(WriteFailed), attempts;
        }
        if a.written != |data| {
          if retries < 2 {
            retries := retries + 1;
            continue;
          }
          return Err(Incomplete), attempts;
        }
        return Ok(()), attempts;
      }
    }
  }
}
