/**
 The three places that cut a file into chunks: ReadChunk and ChunkAndStore (store.go) and
 generateFileHashes (piece_verification.go), and what ShareFile makes of the last one.
 Opening, reading and writing may fail at any time, and a read may be cut short.
 The hash is a parameter; nothing is assumed about it.
 */
module Store {
  import opened Common
  import opened Chunking

  type Digest = string

  datatype IoError = EndOfFile | IoFailed

  /** An open file on disk with its read position. */
  class DiskFile {
    const content: seq<byte>
    var pos: nat
    ghost var faults: nat    // how often the operating system has failed so far

    constructor (content: seq<byte>)
      ensures this.content == content && pos == 0 && faults == 0
    {
      this.content := content;
      pos, faults := 0, 0;
    }

    ghost predicate Valid()
      reads this
    {
      pos <= |content|
    }

    /** One read: at least one byte of what is left, end of file exactly when nothing is, or an error. */
    method Read(buf: array<byte>) returns (n: nat, error: Option<IoError>)
      requires Valid() && buf.Length > 0
      modifies `pos, `faults, buf
      ensures Valid() && pos == old(pos) + n && n <= buf.Length
      ensures faults == old(faults) + if error == Some(IoFailed) then 1 else 0
      ensures buf[..n] == content[old(pos)..pos]
      ensures error.None? <==> n > 0
      ensures error == Some(EndOfFile) ==> old(pos) == |content|
      ensures error == Some(IoFailed) || (error == Some(EndOfFile) <==> old(pos) == |content|)
    {
      n := 0;
      var broken := *;
      if broken {
        faults := faults + 1;
        return 0, Some(IoFailed);
      }
      if pos == |content| {
        return 0, Some(EndOfFile);
      }
      var most: nat := Min(buf.Length, |content| - pos);
      assert 1 <= most;
      n :| 1 <= n <= most;
      forall k | 0 <= k < n {
        buf[k] := content[pos + k];
      }
      pos := pos + n;
      error := None;
    }

    /** Reads until the buffer is full; stops early only with an error. */
    method ReadAt(buf: array<byte>, offset: nat) returns (error: Option<IoError>)
      requires offset + buf.Length <= |content|
      modifies `faults, buf
      ensures faults == old(faults) + if error.Some? then 1 else 0
      ensures error.None? ==> buf[..] == content[offset..offset + buf.Length]
      ensures error != Some(EndOfFile)
    {
      var broken := *;
      if broken {
        faults := faults + 1;
        return Some(IoFailed);
      }
      forall k | 0 <= k < buf.Length {
        buf[k] := content[offset + k];
      }
      return None;
    }

    method Rewind()
      modifies `pos
      ensures pos == 0
    {
      pos := 0;
    }

    /** Any other call to the operating system, such as opening the file. */
    method Works() returns (ok: bool)
      modifies `faults
      ensures faults == old(faults) + if ok then 0 else 1
    {
      ok := *;
      if !ok {
        faults := faults + 1;
      }
    }
  }

  datatype ReadError = OpenFailed | StatFailed | BeyondEnd | ReadFailed

  /**
   As long as the disk works, an index that generateFileHashes counted gives exactly its chunk and any
   other is refused. With a fault the error says so.
   */
  method ReadChunk(file: DiskFile, chunkIndex: nat, chunkSize: nat) returns (r: Result<seq<byte>, ReadError>)
    requires chunkSize > 0
    modifies file`faults
    ensures r.Ok? ==> HasChunk(file.content, chunkSize, chunkIndex)
                      && r.value == ChunkAt(file.content, chunkSize, chunkIndex)
    ensures file.faults == old(file.faults) + if r.Ok? || r == Err(BeyondEnd) then 0 else 1
    ensures r == Err(BeyondEnd) ==> chunkIndex >= NumChunks(|file.content|, chunkSize)
    ensures chunkIndex >= NumChunks(|file.content|, chunkSize) ==> r.Err? && r != Err(ReadFailed)
  {
    AcceptedIffCounted(file.content, chunkSize, chunkIndex);
    var works := file.Works();
    if !works {
      return Err(OpenFailed);
    }
    works := file.Works();
    if !works {
      return Err(StatFailed);
    }
    var startOffset := chunkIndex * chunkSize;
    if startOffset >= |file.content| {
      return Err(BeyondEnd);
    }
    var endOffset := startOffset + chunkSize;
    if endOffset > |file.content| {
      endOffset := |file.content|;
    }
    var chunk := new byte[endOffset - startOffset](_ => 0);
    var error := file.ReadAt(chunk, startOffset);
    if error.Some? && error != Some(EndOfFile) {
      return Err(ReadFailed);
    }
    return Ok(chunk[..]);
  }

  /** One read of a loop that reads the file piece by piece. */
  method ReadPiece(file: DiskFile, buf: array<byte>, ghost pieces: seq<seq<byte>>)
    returns (n: nat, error: Option<IoError>)
    requires file.Valid() && buf.Length > 0
    requires Pieces(file.content, buf.Length, pieces) && |Concat(pieces)| == file.pos
    modifies file`pos, file`faults, buf
    ensures file.Valid() && old(file.pos) <= file.pos
    ensures file.faults == old(file.faults) + if error == Some(IoFailed) then 1 else 0
    ensures n <= buf.Length && (error.None? ==> n > 0 && file.pos == old(file.pos) + n)
    ensures error.None? ==>
              Pieces(file.content, buf.Length, pieces + [buf[..n]]) && |Concat(pieces + [buf[..n]])| == file.pos
    ensures error == Some(EndOfFile) ==> Concat(pieces) == file.content
    ensures error == Some(IoFailed) || (error == Some(EndOfFile) <==> old(file.pos) == |file.content|)
    ensures error.Some? ==> file.pos == old(file.pos)
  {
    n, error := file.Read(buf);
    if error.None? {
      OneMorePiece(file.content, buf.Length, pieces, n);
    } else if error == Some(EndOfFile) {
      assert Concat(pieces) == file.content;
    }
  }

  datatype StoreError = NotReadable | NotWritable

  /**
   Reads through the file piece by piece, storing each. On success the stored pieces make up the
   file and are counted; they are the file's chunks if and only if no read was cut short.
   After an error they are what was stored until then.
   */
  method ChunkAndStore(file: DiskFile, chunkSize: nat)
    returns (r: Result<nat, StoreError>, stored: seq<seq<byte>>)
    requires chunkSize > 0 && file.pos == 0
    modifies file`pos, file`faults
    ensures r.Ok? <==> file.faults == old(file.faults)
    ensures Pieces(file.content, chunkSize, stored)
    ensures r.Ok? ==> r.value == |stored| && Concat(stored) == file.content
    ensures r.Ok? ==> r.value >= NumChunks(|file.content|, chunkSize)
    ensures r.Ok? ==> (stored == AllChunks(file.content, chunkSize) <==> AllFull(file.content, chunkSize, stored))
  {
    stored := [];
    var chunkIndex := 0;
    while true
      invariant file.Valid() && chunkIndex == |stored| && file.faults == old(file.faults)
      invariant Pieces(file.content, chunkSize, stored) && |Concat(stored)| == file.pos
      decreases |file.content| - file.pos
    {
      var buf := new byte[chunkSize](_ => 0);
      var n, error := ReadPiece(file, buf, stored);
      if error == Some(EndOfFile) {
        break;
      }
      if error.Some? {
        assert error.value.IoFailed?;
        return Err(NotReadable), stored;
      }
      var works := file.Works();
      if !works {
        return Err(NotWritable), stored;
      }
      stored := stored + [buf[..n]];
      chunkIndex := chunkIndex + 1;
    }
    WholeFileExactly(file.content, chunkSize, stored);
    var works := file.Works();
    r := if works then Ok(chunkIndex) else Err(NotWritable);
  }

  /** The total hash, the size and the hashes of the pieces read. */
  datatype Hashes = Hashes(chunks: seq<Digest>, total: Digest, size: nat)

  /** One hash for each of these pieces. */
  ghost predicate HashesOf(hashes: seq<Digest>, pieces: seq<seq<byte>>, hash: seq<byte> -> Digest) {
    |hashes| == |pieces| && forall i | 0 <= i < |pieces| :: hashes[i] == hash(pieces[i])
  }

  lemma HashesMore(hashes: seq<Digest>, pieces: seq<seq<byte>>, hash: seq<byte> -> Digest, piece: seq<byte>)
    requires HashesOf(hashes, pieces, hash)
    ensures HashesOf(hashes + [hash(piece)], pieces + [piece], hash)
  {
  }

  /** One round of the hashing loop. */
  method HashPiece(
    file: DiskFile, buf: array<byte>, chunkHashes: array<Digest>, i: nat, ghost pieces: seq<seq<byte>>,
    hash: seq<byte> -> Digest)
    returns (error: Option<IoError>, ghost more: seq<seq<byte>>)
    requires file.Valid() && buf.Length > 0 && i == |pieces| < chunkHashes.Length
    requires Pieces(file.content, buf.Length, pieces) && |Concat(pieces)| == file.pos < |file.content|
    requires HashesOf(chunkHashes[..i], pieces, hash)
    modifies file`pos, file`faults, buf, chunkHashes
    ensures file.Valid() && Pieces(file.content, buf.Length, more)
    ensures error.None? <==> file.faults == old(file.faults)
    ensures error.None? ==>
              |more| == i + 1 && |Concat(more)| == file.pos && HashesOf(chunkHashes[..i + 1], more, hash)
  {
    more := pieces;
    var n;
    n, error := ReadPiece(file, buf, pieces);
    if error.Some? && error != Some(EndOfFile) {
      assert error.value.IoFailed?;
      return error, pieces;
    }
    HashesMore(chunkHashes[..i], pieces, hash, buf[..n]);
    chunkHashes[i] := hash(buf[..n]);
    assert chunkHashes[..i + 1] == chunkHashes[..i] + [hash(buf[..n])];
    more := pieces + [buf[..n]];
  }

  /**
   On success, as many hashes as the file has chunks, each of exactly the piece read for it although
   the buffer is reused; the pieces are the chunks if and only if no read was cut short.
   */
  method GenerateFileHashes(file: DiskFile, chunkSize: nat, hash: seq<byte> -> Digest)
    returns (r: Result<Hashes, IoError>, ghost pieces: seq<seq<byte>>)
    requires chunkSize > 0
    modifies file`pos, file`faults
    ensures r.Ok? <==> file.faults == old(file.faults)
    ensures Pieces(file.content, chunkSize, pieces)
    ensures r.Ok? ==>
              && r.value.size == |file.content| && r.value.total == hash(file.content)
              && |pieces| == NumChunks(|file.content|, chunkSize)
              && HashesOf(r.value.chunks, pieces, hash)
              && (pieces == AllChunks(file.content, chunkSize) <==> AllFull(file.content, chunkSize, pieces))
    ensures r != Err(EndOfFile)
  {
    pieces := [];
    var works := file.Works();
    if !works {
      return Err(IoFailed), pieces;
    }
    var totalSize := |file.content|;
    var numChunks := (totalSize + chunkSize - 1) / chunkSize;
    var chunkHashes := new Digest[numChunks](_ => "");
    works := file.Works();
    if !works {
      return Err(IoFailed), pieces;
    }
    var totalHash := hash(file.content);
    file.Rewind();
    var buf := new byte[chunkSize](_ => 0);
    var i := 0;
    while i < numChunks
      invariant i <= numChunks == chunkHashes.Length && file.Valid() && i == |pieces|
      invariant file.faults == old(file.faults)
      invariant Pieces(file.content, chunkSize, pieces) && |Concat(pieces)| == file.pos
      invariant HashesOf(chunkHashes[..i], pieces, hash)
    {
      ReadsLeft(file.content, chunkSize, pieces);
      var error;
      error, pieces := HashPiece(file, buf, chunkHashes, i, pieces, hash);
      if error.Some? {
        return Err(IoFailed), pieces;
      }
      i := i + 1;
    }
    assert chunkHashes[..i] == chunkHashes[..];
    CountedPieces(file.content, chunkSize, pieces);
    r := Ok(Hashes(chunkHashes[..], totalHash, totalSize));
  }

  lemma CountedPieces(content: seq<byte>, chunkSize: nat, pieces: seq<seq<byte>>)
    requires chunkSize > 0 && Pieces(content, chunkSize, pieces) && |pieces| == NumChunks(|content|, chunkSize)
    ensures pieces == AllChunks(content, chunkSize) <==> AllFull(content, chunkSize, pieces)
  {
    CountedChunks(content, chunkSize, |pieces|);
    ChunksExactly(content, chunkSize, pieces);
  }

  /** While there are fewer pieces than chunks the file has not been read to its end. */
  lemma ReadsLeft(content: seq<byte>, chunkSize: nat, pieces: seq<seq<byte>>)
    requires chunkSize > 0 && Pieces(content, chunkSize, pieces)
    requires |pieces| < NumChunks(|content|, chunkSize)
    ensures |Concat(pieces)| < |content|
  {
    NotTooLong(content, chunkSize, pieces);
    AcceptedIffCounted(content, chunkSize, |pieces|);
  }

  predicate VerifyChunk(data: seq<byte>, expected: Digest, hash: seq<byte> -> Digest) {
    hash(data) == expected
  }

  /** The part of the announced metadata that a downloader uses. */
  datatype Metadata = Metadata(
    numChunks: nat, chunkSize: nat, chunkHashes: seq<Digest>, totalHash: Digest, totalSize: nat)

  /** Everything but the chunk hashes, which depend on how the file was read. */
  ghost predicate Measures(meta: Metadata, content: seq<byte>, hash: seq<byte> -> Digest) {
    && meta.chunkSize > 0
    && meta.totalSize == |content| && meta.totalHash == hash(content)
    && meta.numChunks == |meta.chunkHashes| == NumChunks(|content|, meta.chunkSize)
  }

  ghost predicate Describes(meta: Metadata, content: seq<byte>, hash: seq<byte> -> Digest) {
    && Measures(meta, content, hash)
    && forall i: nat | i < meta.numChunks ::
         HasChunk(content, meta.chunkSize, i)
         && VerifyChunk(ChunkAt(content, meta.chunkSize, i), meta.chunkHashes[i], hash)
  }

  /**
   The metadata always has the right size, count and total hash; its chunk hashes are those of the
   chunks if no read was cut short, and, for a hash without collisions, only then.
   */
  method ShareFile(file: DiskFile, chunkSize: nat, hash: seq<byte> -> Digest)
    returns (r: Result<Metadata, IoError>, ghost pieces: seq<seq<byte>>)
    requires chunkSize > 0
    modifies file`pos, file`faults
    ensures r.Ok? <==> file.faults == old(file.faults)
    ensures Pieces(file.content, chunkSize, pieces)
    ensures r.Ok? ==> r.value.chunkSize == chunkSize && Measures(r.value, file.content, hash)
    ensures r.Ok? && AllFull(file.content, chunkSize, pieces) ==> Describes(r.value, file.content, hash)
    ensures r.Ok? && Injective(hash) && Describes(r.value, file.content, hash) ==>
              AllFull(file.content, chunkSize, pieces)
  {
    var hashes;
    hashes, pieces := GenerateFileHashes(file, chunkSize, hash);
    if hashes.Err? {
      return Err(hashes.error), pieces;
    }
    var h := hashes.value;
    var meta := Metadata(|h.chunks|, chunkSize, h.chunks, h.total, h.size);
    DescribesExactly(meta, file.content, pieces, hash);
    var works := file.Works();
    r := if works then Ok(meta) else Err(IoFailed);
  }

  ghost predicate Injective(hash: seq<byte> -> Digest) {
    forall x, y | hash(x) == hash(y) :: x == y
  }

  lemma AllChunksAt(content: seq<byte>, chunkSize: nat, i: nat)
    requires chunkSize > 0 && i < NumChunks(|content|, chunkSize)
    ensures HasChunk(content, chunkSize, i) && AllChunks(content, chunkSize)[i] == ChunkAt(content, chunkSize, i)
  {
    CountedChunks(content, chunkSize, NumChunks(|content|, chunkSize));
    ChunksAt(content, chunkSize, NumChunks(|content|, chunkSize), i);
  }

  /** When the announced chunk hashes are right. */
  lemma DescribesExactly(meta: Metadata, content: seq<byte>, pieces: seq<seq<byte>>, hash: seq<byte> -> Digest)
    requires Measures(meta, content, hash)
    requires HashesOf(meta.chunkHashes, pieces, hash) && Pieces(content, meta.chunkSize, pieces)
    ensures AllFull(content, meta.chunkSize, pieces) ==> Describes(meta, content, hash)
    ensures Injective(hash) && Describes(meta, content, hash) ==> AllFull(content, meta.chunkSize, pieces)
  {
    CountedChunks(content, meta.chunkSize, |pieces|);
    ChunksExactly(content, meta.chunkSize, pieces);
    var all := AllChunks(content, meta.chunkSize);
    forall i: nat | i < meta.numChunks
      ensures HasChunk(content, meta.chunkSize, i) && all[i] == ChunkAt(content, meta.chunkSize, i)
    {
      AllChunksAt(content, meta.chunkSize, i);
    }
    if Injective(hash) && Describes(meta, content, hash) {
      forall i: nat | i < |pieces| ensures pieces[i] == all[i] {
        assert VerifyChunk(ChunkAt(content, meta.chunkSize, i), meta.chunkHashes[i], hash);
      }
      assert pieces == all;
    }
  }

  /**
   The three chunkers agree: for every file, the count in the metadata is the number of chunks
   ChunkAndStore writes and bounds exactly the indices ReadChunk serves; the served chunk i is
   stored chunk i and passes verification against the announced hash; the chunks are the file.
   */
  lemma ChunkersAgree(meta: Metadata, content: seq<byte>, hash: seq<byte> -> Digest)
    requires Describes(meta, content, hash)
    ensures forall i: nat :: i < meta.numChunks <==> HasChunk(content, meta.chunkSize, i)
    ensures |AllChunks(content, meta.chunkSize)| == meta.numChunks
    ensures forall i: nat | i < meta.numChunks ::
              && AllChunks(content, meta.chunkSize)[i] == ChunkAt(content, meta.chunkSize, i)
              && VerifyChunk(AllChunks(content, meta.chunkSize)[i], meta.chunkHashes[i], hash)
    ensures Concat(AllChunks(content, meta.chunkSize)) == content
  {
    forall i: nat ensures i < meta.numChunks <==> HasChunk(content, meta.chunkSize, i) {
      AcceptedIffCounted(content, meta.chunkSize, i);
    }
    forall i: nat | i < meta.numChunks
      ensures AllChunks(content, meta.chunkSize)[i] == ChunkAt(content, meta.chunkSize, i)
    {
      AllChunksAt(content, meta.chunkSize, i);
    }
    ChunksConcatenate(content, meta.chunkSize);
  }
}
