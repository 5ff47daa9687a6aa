/**
 Streaming encryption and decryption of crypto.go: a stateful key stream applied to whatever pieces
 the reader delivers. The key stream is any function of key, initial counter block and position.
 */
module CtrCopy {
  import opened Common

  type octet = bv8
  type Octets = seq<octet>

  /** AES in counter mode: the key-stream byte for a key, an initial counter block and a position. */
  type KeyStream = (Octets, Octets, nat) -> octet

  const BLOCK_SIZE: nat := 16
  const BUFFER_SIZE: nat := 32 * 1024

  // ---------------------------------------------------------------- the mode as a function

  function Mask(ks: KeyStream, key: Octets, iv: Octets, start: nat, data: Octets): (masked: Octets)
    ensures |masked| == |data|
  {
    seq(|data|, i requires 0 <= i < |data| => data[i] ^ ks(key, iv, start + i))
  }

  /** Every byte is combined with the key stream's byte for its own position. */
  lemma MaskAt(ks: KeyStream, key: Octets, iv: Octets, start: nat, data: Octets, p: nat)
    requires p < |data|
    ensures Mask(ks, key, iv, start, data)[p] == data[p] ^ ks(key, iv, start + p)
  {
  }

  lemma MaskTwice(ks: KeyStream, key: Octets, iv: Octets, start: nat, data: Octets)
    ensures Mask(ks, key, iv, start, Mask(ks, key, iv, start, data)) == data
  {
    forall i | 0 <= i < |data| ensures (data[i] ^ ks(key, iv, start + i)) ^ ks(key, iv, start + i) == data[i] {
      XorTwice(data[i], ks(key, iv, start + i));
    }
  }

  lemma XorTwice(x: octet, k: octet)
    ensures (x ^ k) ^ k == x
  {
  }

  /** A piece masked from its own position, or a prefix of it, continues the whole: splitting does not matter. */
  lemma MaskGrows(ks: KeyStream, key: Octets, iv: Octets, start: nat, data: Octets, done: nat, n: nat, kept: nat)
    requires kept <= n && done + n <= |data|
    ensures Mask(ks, key, iv, start, data)[..done] + Mask(ks, key, iv, start + done, data[done..done + n])[..kept]
            == Mask(ks, key, iv, start, data)[..done + kept]
  {
  }

  /** What copyEncrypt writes. */
  function Encrypted(ks: KeyStream, key: Octets, iv: Octets, plain: Octets): Octets {
    iv + Mask(ks, key, iv, 0, plain)
  }

  /** The ciphertext: sixteen bytes of counter block, then every plaintext byte under its key-stream byte. */
  lemma EncryptedAt(ks: KeyStream, key: Octets, iv: Octets, plain: Octets)
    requires |iv| == 16
    ensures |Encrypted(ks, key, iv, plain)| == 16 + |plain|
    ensures Encrypted(ks, key, iv, plain)[..16] == iv
    ensures forall p | 0 <= p < |plain| :: Encrypted(ks, key, iv, plain)[16 + p] == plain[p] ^ ks(key, iv, p)
  {
    forall p | 0 <= p < |plain| ensures Encrypted(ks, key, iv, plain)[16 + p] == plain[p] ^ ks(key, iv, p) {
      MaskAt(ks, key, iv, 0, plain, p);
    }
  }

  /** The counter block copyDecrypt uses when its first read delivered only these bytes. */
  function Padded(head: Octets): (iv: Octets)
    requires |head| <= BLOCK_SIZE
    ensures |iv| == 16
    ensures forall k | 0 <= k < 16 :: iv[k] == if k < |head| then head[k] else 0
  {
    head + seq(BLOCK_SIZE - |head|, _ => 0)
  }

  /** What copyDecrypt writes when its first read delivers `first` bytes. */
  function Decrypted(ks: KeyStream, key: Octets, cipher: Octets, first: nat): Octets
    requires first <= BLOCK_SIZE && first <= |cipher|
  {
    Mask(ks, key, Padded(cipher[..first]), 0, cipher[first..])
  }

  /** What decryption makes of every byte after the counter block. */
  lemma DecryptedAt(ks: KeyStream, key: Octets, cipher: Octets, first: nat)
    requires first <= 16 && first <= |cipher|
    ensures |Decrypted(ks, key, cipher, first)| == |cipher| - first
    ensures forall p | 0 <= p < |cipher| - first ::
              Decrypted(ks, key, cipher, first)[p] == cipher[first + p] ^ ks(key, Padded(cipher[..first]), p)
  {
    forall p | 0 <= p < |cipher| - first
      ensures Decrypted(ks, key, cipher, first)[p] == cipher[first + p] ^ ks(key, Padded(cipher[..first]), p)
    {
      MaskAt(ks, key, Padded(cipher[..first]), 0, cipher[first..], p);
    }
  }

  /**
   Decryption undoes encryption for every key, counter block and plaintext if and only if its single
   read of the counter block delivers all sixteen bytes.
   */
  lemma RoundTripExactly(ks: KeyStream, key: Octets, iv: Octets, plain: Octets, first: nat)
    requires |iv| == BLOCK_SIZE && first <= BLOCK_SIZE
    ensures Decrypted(ks, key, Encrypted(ks, key, iv, plain), first) == plain <==> first == BLOCK_SIZE
  {
    var cipher := Encrypted(ks, key, iv, plain);
    if first == BLOCK_SIZE {
      assert cipher[..first] == iv && cipher[first..] == Mask(ks, key, iv, 0, plain);
      assert Padded(iv) == iv;
      MaskTwice(ks, key, iv, 0, plain);
    } else {
      assert |Decrypted(ks, key, cipher, first)| > |plain|;
    }
  }

  // ---------------------------------------------------------------- readers and writers

  /** How a read ended: more may follow, end of file (possibly with the last bytes), or an error. */
  datatype Status = More | AtEnd | Broken

  /** A reader over fixed data that delivers it in pieces of any size. */
  class Source {
    const data: Octets
    var pos: nat
    ghost var faults: nat    // how many reads failed

    constructor (data: Octets)
      ensures this.data == data && pos == 0 && faults == 0
    {
      this.data, pos, faults := data, 0, 0;
    }

    ghost predicate Valid()
      reads this
    {
      pos <= |data|
    }

    ghost function Remaining(): Octets
      requires Valid()
      reads this
    {
      data[pos..]
    }

    method Read(buf: array<octet>) returns (n: nat, status: Status)
      requires Valid() && buf.Length > 0
      modifies this`pos, this`faults, buf
      ensures faults == old(faults) + if status.Broken? then 1 else 0
      ensures Valid() && n <= buf.Length && pos == old(pos) + n
      ensures buf[..n] == old(Remaining())[..n] && buf[n..] == old(buf[n..])
      ensures status.More? ==> n > 0
      ensures status.AtEnd? ==> Remaining() == []
    {
      var most: nat := Min(buf.Length, |data| - pos);
      n :| 0 <= n <= most;
      forall k | 0 <= k < n {
        buf[k] := data[pos + k];
      }
      pos := pos + n;
      var broken, early := *, *;
      status :=
        if broken then Broken
        else if pos == |data| && (n == 0 || early) then AtEnd
        else if n > 0 then More
        else Broken;
      if status.Broken? {
        faults := faults + 1;
      }
    }
  }

  /** A writer; a failing write may have written some prefix. */
  class Sink {
    var written: Octets
    ghost var faults: nat    // how many writes failed

    constructor ()
      ensures written == [] && faults == 0
    {
      written, faults := [], 0;
    }

    method Write(data: Octets) returns (n: nat, failed: bool)
      modifies this
      ensures n <= |data| && (!failed ==> n == |data|)
      ensures written == old(written) + data[..n]
      ensures faults == old(faults) + if failed then 1 else 0
    {
      failed := *;
      n := |data|;
      if failed {
        n :| 0 <= n <= |data|;
        faults := faults + 1;
      }
      written := written + data[..n];
    }
  }

  /** cipher.Stream: remembers how much of the key stream has been used. */
  class CtrStream {
    const ks: KeyStream
    const key: Octets
    const iv: Octets
    var pos: nat

    constructor (ks: KeyStream, key: Octets, iv: Octets)
      ensures this.ks == ks && this.key == key && this.iv == iv && pos == 0
    {
      this.ks, this.key, this.iv, pos := ks, key, iv, 0;
    }

    method XorKeyStream(buf: array<octet>, n: nat)
      requires n <= buf.Length
      modifies this`pos, buf
      ensures pos == old(pos) + n
      ensures buf[..n] == Mask(ks, key, iv, old(pos), old(buf[..n])) && buf[n..] == old(buf[n..])
      ensures forall k | 0 <= k < n :: buf[k] == old(buf[k]) ^ ks(key, iv, old(pos) + k)
    {
      forall k | 0 <= k < n {
        buf[k] := buf[k] ^ ks(key, iv, pos + k);
      }
      pos := pos + n;
    }
  }

  // ---------------------------------------------------------------- the copies

  datatype CopyError = BadKey | ReadFailed | WriteFailed | NoCounterBlock

  /** One round of the copy: read a piece, mask it in place, write it. */
  method CopyPiece(stream: CtrStream, src: Source, dst: Sink, buf: array<octet>)
    returns (n: nat, nn: nat, status: Status, failed: bool)
    requires src.Valid() && buf.Length > 0
    modifies stream`pos, src`pos, src`faults, dst, buf
    ensures src.faults == old(src.faults) + if status.Broken? then 1 else 0
    ensures dst.faults == old(dst.faults) + if failed then 1 else 0
    ensures src.Valid() && src.pos == old(src.pos) + n && stream.pos == old(stream.pos) + n
    ensures n <= |old(src.Remaining())| && nn <= n && (!failed ==> nn == n)
    ensures status.More? ==> n > 0
    ensures status.AtEnd? ==> n == |old(src.Remaining())|
    ensures dst.written == old(dst.written)
                           + Mask(stream.ks, stream.key, stream.iv, old(stream.pos), old(src.Remaining())[..n])[..nn]
  {
    n, status := src.Read(buf);
    nn, failed := 0, false;
    if n > 0 {
      stream.XorKeyStream(buf, n);
      nn, failed := dst.Write(buf[..n]);
    }
  }

  /**
   However the reads are split, including last bytes delivered together with end of file, a
   successful copy writes the whole rest of the source masked from the stream's current position
   and returns the block size plus that length; a failing one writes a prefix of it.
   */
  method CopyStream(stream: CtrStream, blockSize: nat, src: Source, dst: Sink)
    returns (r: Result<nat, CopyError>, ghost out: nat)
    requires src.Valid()
    modifies stream`pos, src`pos, src`faults, dst
    ensures src.Valid()
    ensures r.Ok? <==> src.faults == old(src.faults) && dst.faults == old(dst.faults)
    ensures old(src.faults) <= src.faults && old(dst.faults) <= dst.faults
    ensures out <= |old(src.Remaining())|
    ensures dst.written == old(dst.written)
                           + Mask(stream.ks, stream.key, stream.iv, old(stream.pos), old(src.Remaining()))[..out]
    ensures r.Ok? ==> out == |old(src.Remaining())| && r.value == blockSize + out
    ensures r.Err? ==> r.error.ReadFailed? || r.error.WriteFailed?
  {
    ghost var rest := src.Remaining();
    ghost var all := Mask(stream.ks, stream.key, stream.iv, stream.pos, rest);
    var buf := new octet[BUFFER_SIZE](_ => 0);
    var nw := blockSize;
    out := 0;
    while true
      invariant src.Valid() && src.pos == old(src.pos) + out && out <= |rest|
      invariant src.faults == old(src.faults) && dst.faults == old(dst.faults)
      invariant stream.pos == old(stream.pos) + out && nw == blockSize + out
      invariant dst.written == old(dst.written) + all[..out]
      decreases |rest| - out
    {
      assert src.Remaining() == rest[out..];
      var n, nn, status, failed := CopyPiece(stream, src, dst, buf);
      assert rest[out..][..n] == rest[out..out + n];
      MaskGrows(stream.ks, stream.key, stream.iv, old(stream.pos), rest, out, n, nn);
      out := out + nn;
      if failed {
        return Err(WriteFailed), out;
      }
      nw := nw + nn;
      if status.AtEnd? {
        assert out == |rest|;
        return Ok(nw), out;
      }
      if status.Broken? {
        return Err(ReadFailed), out;
      }
    }
  }

  predicate ValidKey(key: Octets) {
    |key| == 16 || |key| == 24 || |key| == 32
  }

  /** After what was there before come the counter block and every plaintext byte under its key-stream byte. */
  ghost predicate IsEncryption(
    written: Octets, before: Octets, ks: KeyStream, key: Octets, iv: Octets, plain: Octets)
  {
    var n := |before|;
    && |iv| == 16 && |written| == n + 16 + |plain|
    && written[..n] == before && written[n..n + 16] == iv
    && forall p | 0 <= p < |plain| :: written[n + 16 + p] == plain[p] ^ ks(key, iv, p)
  }

  lemma WrittenAt(ks: KeyStream, key: Octets, iv: Octets, before: Octets, plain: Octets)
    requires |iv| == 16
    ensures IsEncryption(before + Encrypted(ks, key, iv, plain), before, ks, key, iv, plain)
  {
    var cipher := Encrypted(ks, key, iv, plain);
    EncryptedAt(ks, key, iv, plain);
    var written, n := before + cipher, |before|;
    assert written[n..n + 16] == cipher[..16];
    forall p | 0 <= p < |plain| ensures written[n + 16 + p] == plain[p] ^ ks(key, iv, p) {
      assert written[n + 16 + p] == cipher[16 + p];
    }
  }

  /** Writes the fresh counter block, then the masked source. */
  method CopyEncrypt(ks: KeyStream, key: Octets, iv: Octets, src: Source, dst: Sink) returns (r: Result<nat, CopyError>)
    requires src.Valid() && |iv| == BLOCK_SIZE
    modifies src`pos, src`faults, dst
    ensures src.Valid()
    ensures r == Err(BadKey) <==> !(|key| == 16 || |key| == 24 || |key| == 32)
    ensures r.Ok? || r == Err(BadKey) <==> src.faults == old(src.faults) && dst.faults == old(dst.faults)
    ensures r.Ok? ==> IsEncryption(dst.written, old(dst.written), ks, key, iv, old(src.Remaining()))
    ensures r.Ok? ==> dst.written == old(dst.written) + Encrypted(ks, key, iv, old(src.Remaining()))
                      && r.value == BLOCK_SIZE + |old(src.Remaining())|
  {
    if !ValidKey(key) {
      return Err(BadKey);
    }
    var n, failed := dst.Write(iv);
    if failed {
      return Err(WriteFailed);
    }
    var stream := new CtrStream(ks, key, iv);
    ghost var plain := src.Remaining();
    ghost var out;
    r, out := CopyStream(stream, BLOCK_SIZE, src, dst);
    if r.Ok? {
      TakeAll(iv, n);
      TakeAll(Mask(ks, key, iv, 0, plain), out);
      Joined(old(dst.written), iv, Mask(ks, key, iv, 0, plain));
      WrittenAt(ks, key, iv, old(dst.written), plain);
    }
  }

  lemma TakeAll(a: Octets, n: nat)
    requires n == |a|
    ensures a[..n] == a
  {
  }

  lemma Joined(a: Octets, b: Octets, c: Octets)
    ensures a + b + c == a + (b + c)
  {
  }

  /**
   Takes the counter block from one read, which may deliver less; end of file reported with that
   read is an error. `first` is how much it delivered.
   */
  method CopyDecrypt(ks: KeyStream, key: Octets, src: Source, dst: Sink)
    returns (r: Result<nat, CopyError>, ghost first: nat)
    requires src.Valid()
    modifies src`pos, src`faults, dst
    ensures src.Valid()
    ensures r.Err? && src.faults == old(src.faults) && dst.faults == old(dst.faults) ==>
              r == Err(BadKey) || (r == Err(NoCounterBlock) && first == |old(src.Remaining())|)
    ensures r.Ok? ==> src.faults == old(src.faults) && dst.faults == old(dst.faults)
    ensures first <= BLOCK_SIZE && first <= |old(src.Remaining())|
    ensures r == Err(BadKey) <==> !(|key| == 16 || |key| == 24 || |key| == 32)
    ensures r.Ok? ==> first > 0
                      && dst.written == old(dst.written) + Decrypted(ks, key, old(src.Remaining()), first)
                      && r.value == BLOCK_SIZE + |old(src.Remaining())| - first
  {
    first := 0;
    if !ValidKey(key) {
      return Err(BadKey), 0;
    }
    ghost var cipher := src.Remaining();
    var iv := new octet[BLOCK_SIZE](_ => 0);
    ghost var zeros: Octets := seq(BLOCK_SIZE, _ => 0);
    assert iv[..] == zeros;
    var n, status := src.Read(iv);
    first := n;
    assert cipher[first..] == src.Remaining();
    if !status.More? {
      return Err(NoCounterBlock), first;
    }
    assert iv[n..] == zeros[n..] == Padded(cipher[..first])[n..];
    assert iv[..n] == cipher[..first] == Padded(cipher[..first])[..n];
    assert iv[..] == iv[..n] + iv[n..];
    assert iv[..] == Padded(cipher[..first]);
    var stream := new CtrStream(ks, key, iv[..]);
    ghost var all := Mask(ks, key, iv[..], 0, src.Remaining());
    ghost var out;
    r, out := CopyStream(stream, BLOCK_SIZE, src, dst);
    if r.Ok? {
      assert all[..out] == all;
    }
  }

  /**
   The two copies in sequence, each over its own way of splitting the reads. When both succeed the
   plaintext is restored, with both results its length plus 16, exactly when the counter block came whole.
   */
  method EncryptThenDecrypt(ks: KeyStream, key: Octets, iv: Octets, plain: Octets)
    returns (encrypted: Result<nat, CopyError>, decrypted: Result<nat, CopyError>, restored: Octets, ghost first: nat)
    requires |iv| == BLOCK_SIZE
    ensures encrypted.Ok? ==> encrypted.value == 16 + |plain|
    ensures encrypted.Ok? && decrypted.Ok? ==>
              && (restored == plain <==> first == BLOCK_SIZE)
              && (decrypted.value == 16 + |plain| <==> first == BLOCK_SIZE)
  {
    var dst := new Sink();
    var src := new Source(plain);
    encrypted := CopyEncrypt(ks, key, iv, src, dst);
    var out := new Sink();
    var back := new Source(dst.written);
    decrypted, first := CopyDecrypt(ks, key, back, out);
    restored := out.written;
    if encrypted.Ok? && decrypted.Ok? {
      RoundTripExactly(ks, key, iv, plain, first);
      assert plain[0..] == plain;
      assert dst.written[0..] == dst.written;
    }
  }
}
