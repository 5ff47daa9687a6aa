/**
 The seeder's side of one request: the checks, the chunk read from disk, and the framed reply. The
 message encoding is a parameter; nothing about it is assumed.
 */
module Seeder {
  import opened Common
  import opened Chunking
  import opened Store
  import opened DownloadSystem
  import Framing

  const MAX_CONCURRENT_CHUNKS: nat := 5
  const MAX_READS: nat := 3

  type Encoding = Message -> seq<byte>

  datatype Refusal = NotSeeded | TooManyTransfers | InvalidChunk | Unreadable | NotSent

  /** A file being shared: its metadata and where it is on disk. */
  datatype SharedFile = SharedFile(meta: Metadata, file: DiskFile)

  ghost predicate Honest(active: map<FileId, SharedFile>, chunkSize: nat, hash: seq<byte> -> Digest) {
    forall f | f in active ::
      active[f].meta.chunkSize == chunkSize && Measures(active[f].meta, active[f].file.content, hash)
  }

  ghost function ReplyTo(active: map<FileId, SharedFile>, chunkSize: nat, file: FileId, chunk: nat): Option<Message>
    requires chunkSize > 0
  {
    if file in active then SeederReply(Config(file, active[file].file.content, chunkSize), chunk) else None
  }

  /**
   A successful reply is exactly the chunk that the download's seeder step sends, as one frame; a
   refused request writes nothing. Refusals happen for files not shared, for five or more handlers
   on the list, for indices beyond the announced count, and after three failed reads of a counted one.
   */
  method HandleChunkRequest(
    conn: Framing.Connection, active: map<FileId, SharedFile>, activeSends: nat,
    file: FileId, chunk: nat, chunkSize: nat, encode: Encoding, ghost hash: seq<byte> -> Digest)
    returns (r: Result<(), Refusal>, ghost failures: seq<ReadError>)
    requires chunkSize > 0 && Honest(active, chunkSize, hash)
    modifies conn, (set f | f in active :: active[f].file)`faults
    ensures r == Err(NotSeeded) <==> file !in active
    ensures r == Err(TooManyTransfers) <==> file in active && activeSends >= 5
    ensures r == Err(InvalidChunk) <==>
              file in active && activeSends < 5 && ReplyTo(active, chunkSize, file, chunk).None?
    ensures |failures| <= 3 && forall k | 0 <= k < |failures| :: failures[k] != BeyondEnd
    ensures file in active ==> active[file].file.faults == old(active[file].file.faults) + |failures|
    ensures r == Err(Unreadable) <==> |failures| == 3
    ensures r == Err(NotSent) <==> conn.faults != old(conn.faults)
    ensures r.Err? && r != Err(NotSent) ==> conn.written == old(conn.written)
    ensures r.Ok? ==>
              && ReplyTo(active, chunkSize, file, chunk).Some?
              && var m := encode(ReplyTo(active, chunkSize, file, chunk).value);
                 conn.written == old(conn.written) + (Framing.BigEndian(|m| % Framing.TWO_TO_THE_32) + m)
  {
    failures := [];
    if file !in active {
      return Err(NotSeeded), failures;
    }
    if activeSends >= MAX_CONCURRENT_CHUNKS {
      return Err(TooManyTransfers), failures;
    }
    var shared := active[file];
    if chunk >= shared.meta.numChunks {
      return Err(InvalidChunk), failures;
    }
    var read: Result<seq<byte>, ReadError> := Err(BeyondEnd);
    var retries := 0;
    while retries < MAX_READS && read.Err?
      invariant conn.written == old(conn.written) && conn.faults == old(conn.faults)
      invariant shared.file.faults == old(shared.file.faults) + |failures|
      invariant |failures| == (if read.Ok? then retries - 1 else retries) <= MAX_READS
      invariant forall k | 0 <= k < |failures| :: failures[k] != BeyondEnd
      invariant read.Ok? ==> retries <= MAX_READS
                             && HasChunk(shared.file.content, chunkSize, chunk)
                             && read.value == ChunkAt(shared.file.content, chunkSize, chunk)
    {
      read := ReadChunk(shared.file, chunk, chunkSize);
      if read.Err? {
        failures := failures + [read.error];
      }
      retries := retries + 1;
    }
    if read.Err? {
      return Err(Unreadable), failures;
    }
    var m := encode(Response(file, chunk, read.value));
    var data := new byte[|m|](k requires 0 <= k < |m| => m[k]);
    assert data[..] == m;
    ghost var reply := ReplyTo(active, chunkSize, file, chunk);
    assert reply == Some(Response(file, chunk, read.value));
    var sent, _ := conn.SendSegmented(data);
    if sent.Err? {
      return Err(NotSent), failures;
    }
    return Ok(()), failures;
  }

  /** A reply of up to 17 MiB decodes at the other end to the encoded chunk, whatever follows it. */
  lemma ReplyArrives(
    active: map<FileId, SharedFile>, chunkSize: nat, file: FileId, chunk: nat, encode: Encoding, rest: seq<byte>)
    requires chunkSize > 0 && ReplyTo(active, chunkSize, file, chunk).Some?
    requires 0 < |encode(ReplyTo(active, chunkSize, file, chunk).value)| <= Framing.MAX_MESSAGE
    ensures var m := encode(ReplyTo(active, chunkSize, file, chunk).value);
            Framing.DecodeOne(Framing.BigEndian(|m| % Framing.TWO_TO_THE_32) + m + rest) == Framing.Message(m, rest)
  {
    Framing.WritersAgree(encode(ReplyTo(active, chunkSize, file, chunk).value), rest);
  }
}
