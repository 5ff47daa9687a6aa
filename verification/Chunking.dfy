/** Cutting a file into chunks of a fixed positive size. */
module Chunking {
  import opened Common

  /** The chunk count that generateFileHashes computes: the size over the chunk size, rounded up. */
  function NumChunks(size: nat, chunkSize: nat): nat
    requires chunkSize > 0
  {
    (size + chunkSize - 1) / chunkSize
  }

  /** Whether ReadChunk accepts the index: the chunk starts before the end of the file. */
  predicate HasChunk(content: seq<byte>, chunkSize: nat, i: nat) {
    i * chunkSize < |content|
  }

  function ChunkAt(content: seq<byte>, chunkSize: nat, i: nat): (chunk: seq<byte>)
    requires HasChunk(content, chunkSize, i)
  {
    content[i * chunkSize..Min(i * chunkSize + chunkSize, |content|)]
  }

  lemma ChunkBounds(content: seq<byte>, chunkSize: nat, i: nat)
    requires chunkSize > 0 && HasChunk(content, chunkSize, i)
    ensures 0 < |ChunkAt(content, chunkSize, i)| <= chunkSize
    ensures i * chunkSize + |ChunkAt(content, chunkSize, i)| <= |content|
  {
  }

  /** The indices ReadChunk accepts are exactly those below the announced chunk count. */
  lemma AcceptedIffCounted(content: seq<byte>, chunkSize: nat, i: nat)
    requires chunkSize > 0
    ensures HasChunk(content, chunkSize, i) <==> i < NumChunks(|content|, chunkSize)
  {
    var count := NumChunks(|content|, chunkSize);
    var rest := (|content| + chunkSize - 1) % chunkSize;
    assert |content| + chunkSize - 1 == count * chunkSize + rest;
    if i < count {
      assert (i + 1) * chunkSize <= count * chunkSize;
    } else {
      assert count * chunkSize <= i * chunkSize;
    }
  }

  /** Every position of the file lies in exactly the chunk with index position / chunkSize. */
  lemma ChunkOfPosition(content: seq<byte>, chunkSize: nat, p: nat) returns (i: nat)
    requires chunkSize > 0 && p < |content|
    ensures i == p / chunkSize && i < NumChunks(|content|, chunkSize)
    ensures HasChunk(content, chunkSize, i)
    ensures i * chunkSize <= p < i * chunkSize + |ChunkAt(content, chunkSize, i)|
  {
    i := p / chunkSize;
    assert p == i * chunkSize + p % chunkSize;
    AcceptedIffCounted(content, chunkSize, i);
  }

  /** Whether the file has at least n chunks. */
  predicate HasChunks(content: seq<byte>, chunkSize: nat, n: nat) {
    n == 0 || HasChunk(content, chunkSize, n - 1)
  }

  lemma CountedChunks(content: seq<byte>, chunkSize: nat, n: nat)
    requires chunkSize > 0
    ensures HasChunks(content, chunkSize, n) <==> n <= NumChunks(|content|, chunkSize)
  {
    if n > 0 {
      AcceptedIffCounted(content, chunkSize, n - 1);
    }
  }

  lemma FewerChunks(content: seq<byte>, chunkSize: nat, n: nat, i: nat)
    requires HasChunks(content, chunkSize, n) && i < n
    ensures HasChunk(content, chunkSize, i) && HasChunks(content, chunkSize, i)
  {
    assert i * chunkSize <= (n - 1) * chunkSize;
    if i > 0 {
      assert (i - 1) * chunkSize <= (n - 1) * chunkSize;
    }
  }

  /** The first n chunks, in order. */
  function Chunks(content: seq<byte>, chunkSize: nat, n: nat): (chunks: seq<seq<byte>>)
    requires HasChunks(content, chunkSize, n)
    ensures |chunks| == n
  {
    if n == 0 then []
    else
      FewerChunks(content, chunkSize, n, n - 1);
      Chunks(content, chunkSize, n - 1) + [ChunkAt(content, chunkSize, n - 1)]
  }

  /** All chunks of the file. */
  function AllChunks(content: seq<byte>, chunkSize: nat): (chunks: seq<seq<byte>>)
    requires chunkSize > 0
    ensures |chunks| == NumChunks(|content|, chunkSize)
  {
    CountedChunks(content, chunkSize, NumChunks(|content|, chunkSize));
    Chunks(content, chunkSize, NumChunks(|content|, chunkSize))
  }

  lemma {:induction false} ChunksAt(content: seq<byte>, chunkSize: nat, n: nat, i: nat)
    requires i < n && HasChunks(content, chunkSize, n)
    ensures HasChunk(content, chunkSize, i)
    ensures Chunks(content, chunkSize, n)[i] == ChunkAt(content, chunkSize, i)
  {
    FewerChunks(content, chunkSize, n, n - 1);
    FewerChunks(content, chunkSize, n, i);
    if i < n - 1 {
      ChunksAt(content, chunkSize, n - 1, i);
    }
  }

  function Concat(parts: seq<seq<byte>>): seq<byte> {
    if parts == [] then [] else Concat(parts[..|parts| - 1]) + parts[|parts| - 1]
  }

  lemma ConcatMore(parts: seq<seq<byte>>, part: seq<byte>)
    ensures Concat(parts + [part]) == Concat(parts) + part
  {
    assert (parts + [part])[..|parts|] == parts;
  }

  lemma Joined(content: seq<byte>, start: nat, end: nat)
    requires start <= end <= |content|
    ensures content[..start] + content[start..end] == content[..end]
  {
  }

  /** Where the chunk after the first n begins: n chunk sizes into the file, or at its end. */
  function Offset(content: seq<byte>, chunkSize: nat, n: nat): (offset: nat)
    ensures offset <= |content|
  {
    Min(n * chunkSize, |content|)
  }

  lemma ChunkIs(content: seq<byte>, chunkSize: nat, i: nat)
    requires HasChunk(content, chunkSize, i)
    ensures var start := Offset(content, chunkSize, i);
            && start < |content|
            && Offset(content, chunkSize, i + 1) == Min(start + chunkSize, |content|)
            && ChunkAt(content, chunkSize, i) == content[start..Min(start + chunkSize, |content|)]
  {
    assert (i + 1) * chunkSize == i * chunkSize + chunkSize;
  }

  /** The first n chunks put together are the first n * chunkSize bytes, or the whole file. */
  lemma {:induction false} ConcatPrefix(content: seq<byte>, chunkSize: nat, n: nat)
    requires HasChunks(content, chunkSize, n)
    ensures Concat(Chunks(content, chunkSize, n)) == content[..Offset(content, chunkSize, n)]
  {
    if n > 0 {
      FewerChunks(content, chunkSize, n, n - 1);
      ConcatPrefix(content, chunkSize, n - 1);
      ConcatMore(Chunks(content, chunkSize, n - 1), ChunkAt(content, chunkSize, n - 1));
      ChunkIs(content, chunkSize, n - 1);
      Joined(content, Offset(content, chunkSize, n - 1), Offset(content, chunkSize, n));
    }
  }

  /** The chunks of a file, in order, are the file. */
  lemma ChunksConcatenate(content: seq<byte>, chunkSize: nat)
    requires chunkSize > 0
    ensures Concat(AllChunks(content, chunkSize)) == content
  {
    var n := NumChunks(|content|, chunkSize);
    CountedChunks(content, chunkSize, n);
    ConcatPrefix(content, chunkSize, n);
    AcceptedIffCounted(content, chunkSize, n);
    assert content[..|content|] == content;
  }

  // ---------------------------------------------------------------- pieces of any length

  /** Pieces read one after the other from the start of the file, each of at least one byte. */
  ghost predicate Pieces(content: seq<byte>, chunkSize: nat, pieces: seq<seq<byte>>) {
    && Concat(pieces) <= content
    && forall k | 0 <= k < |pieces| :: 0 < |pieces[k]| <= chunkSize
  }

  /** Every piece is as long as the chunk size and the rest of the file allow: no read was cut short. */
  ghost predicate AllFull(content: seq<byte>, chunkSize: nat, pieces: seq<seq<byte>>) {
    pieces == [] ||
    var before, last := pieces[..|pieces| - 1], pieces[|pieces| - 1];
    AllFull(content, chunkSize, before) && |last| == Min(chunkSize, |content| - |Concat(before)|)
  }

  /** What one more read adds. */
  lemma OneMorePiece(content: seq<byte>, chunkSize: nat, pieces: seq<seq<byte>>, n: nat)
    requires Pieces(content, chunkSize, pieces)
    requires 0 < n <= chunkSize && |Concat(pieces)| + n <= |content|
    ensures var start := |Concat(pieces)|;
            var more := pieces + [content[start..start + n]];
            Pieces(content, chunkSize, more) && Concat(more) == content[..start + n]
  {
    var start := |Concat(pieces)|;
    ConcatMore(pieces, content[start..start + n]);
    Joined(content, start, start + n);
    assert Concat(pieces) == content[..start];
  }

  lemma PiecesTake(content: seq<byte>, chunkSize: nat, pieces: seq<seq<byte>>)
    requires Pieces(content, chunkSize, pieces) && pieces != []
    ensures var before, last := pieces[..|pieces| - 1], pieces[|pieces| - 1];
            && Pieces(content, chunkSize, before)
            && |Concat(before)| + |last| <= |content|
            && last == content[|Concat(before)|..|Concat(before)| + |last|]
  {
    var before, last := pieces[..|pieces| - 1], pieces[|pieces| - 1];
    assert Concat(pieces) == Concat(before) + last;
    assert Concat(pieces) == content[..|Concat(pieces)|];
    assert last == Concat(pieces)[|Concat(before)|..];
  }

  lemma SliceLength(content: seq<byte>, start: nat, end: nat, piece: seq<byte>)
    requires start + |piece| <= |content| && piece == content[start..start + |piece|] && start <= end <= |content|
    ensures |piece| == end - start <==> piece == content[start..end]
  {
  }

  lemma ConcatLength(content: seq<byte>, chunkSize: nat, n: nat)
    requires HasChunks(content, chunkSize, n)
    ensures |Concat(Chunks(content, chunkSize, n))| == Offset(content, chunkSize, n)
  {
    ConcatPrefix(content, chunkSize, n);
  }

  lemma InsideMeansChunk(content: seq<byte>, chunkSize: nat, n: nat)
    requires Offset(content, chunkSize, n) < |content|
    ensures HasChunk(content, chunkSize, n)
  {
  }

  /** After k chunks, a piece of the file is the next chunk if and only if it is as long as it can be. */
  lemma NextPiece(content: seq<byte>, chunkSize: nat, k: nat, start: nat, piece: seq<byte>)
    requires HasChunks(content, chunkSize, k) && start == |Concat(Chunks(content, chunkSize, k))|
    requires 0 < |piece| && start + |piece| <= |content| && piece == content[start..start + |piece|]
    ensures HasChunk(content, chunkSize, k)
    ensures |piece| == Min(chunkSize, |content| - start) <==> piece == ChunkAt(content, chunkSize, k)
  {
    ConcatLength(content, chunkSize, k);
    InsideMeansChunk(content, chunkSize, k);
    ChunkIs(content, chunkSize, k);
    SliceLength(content, start, Min(start + chunkSize, |content|), piece);
  }

  ghost predicate AreChunks(content: seq<byte>, chunkSize: nat, pieces: seq<seq<byte>>) {
    HasChunks(content, chunkSize, |pieces|) && pieces == Chunks(content, chunkSize, |pieces|)
  }

  lemma ChunksFewer(content: seq<byte>, chunkSize: nat, pieces: seq<seq<byte>>)
    requires AreChunks(content, chunkSize, pieces) && pieces != []
    ensures AreChunks(content, chunkSize, pieces[..|pieces| - 1])
  {
    FewerChunks(content, chunkSize, |pieces|, |pieces| - 1);
  }

  /** Read in sequence, the pieces are the chunks if and only if no read was cut short. */
  lemma {:induction false} ChunksExactly(content: seq<byte>, chunkSize: nat, pieces: seq<seq<byte>>)
    requires Pieces(content, chunkSize, pieces)
    ensures AllFull(content, chunkSize, pieces) <==> AreChunks(content, chunkSize, pieces)
  {
    if pieces != [] {
      var before, last := pieces[..|pieces| - 1], pieces[|pieces| - 1];
      PiecesTake(content, chunkSize, pieces);
      ChunksExactly(content, chunkSize, before);
      assert pieces == before + [last];
      if AreChunks(content, chunkSize, before) {
        NextPiece(content, chunkSize, |before|, |Concat(before)|, last);
      } else if AreChunks(content, chunkSize, pieces) {
        ChunksFewer(content, chunkSize, pieces);
      }
    }
  }

  lemma {:induction false} NotTooLong(content: seq<byte>, chunkSize: nat, pieces: seq<seq<byte>>)
    requires Pieces(content, chunkSize, pieces)
    ensures |Concat(pieces)| <= |pieces| * chunkSize
  {
    if pieces != [] {
      PiecesTake(content, chunkSize, pieces);
      NotTooLong(content, chunkSize, pieces[..|pieces| - 1]);
      assert |pieces| * chunkSize == (|pieces| - 1) * chunkSize + chunkSize;
    }
  }

  /**
   Pieces that make up the whole file are at least as many as its chunks, and they are its chunks if
   and only if no read was cut short.
   */
  lemma WholeFileExactly(content: seq<byte>, chunkSize: nat, pieces: seq<seq<byte>>)
    requires chunkSize > 0 && Pieces(content, chunkSize, pieces) && Concat(pieces) == content
    ensures |pieces| >= NumChunks(|content|, chunkSize)
    ensures AllFull(content, chunkSize, pieces) <==> pieces == AllChunks(content, chunkSize)
  {
    NotTooLong(content, chunkSize, pieces);
    AcceptedIffCounted(content, chunkSize, |pieces|);
    CountedChunks(content, chunkSize, |pieces|);
    ChunksExactly(content, chunkSize, pieces);
  }
}
