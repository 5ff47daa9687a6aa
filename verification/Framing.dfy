/**
 Length-prefixed messages on a byte stream: the two writers (TCPPeer.Send and the seeder's segmented
 sender), the decoder, and the receive loop of a connection. One writer at a time per connection.
 */
module Framing {
  import opened Common

  type Payload = seq<byte>

  const MAX_MESSAGE: nat := 17 * 1024 * 1024
  const SEGMENT: nat := 1024 * 1024
  const TWO_TO_THE_32: nat := 0x1_0000_0000

  // ---------------------------------------------------------------- the format

  function BigEndian(n: nat): (bytes: seq<byte>)
    requires n < TWO_TO_THE_32
    ensures |bytes| == 4
  {
    var low := n / 0x100;
    var mid := low / 0x100;
    [(mid / 0x100) as byte, (mid % 0x100) as byte, (low % 0x100) as byte, (n % 0x100) as byte]
  }

  function FromBigEndian(bytes: seq<byte>): (n: nat)
    requires |bytes| == 4
    ensures n < TWO_TO_THE_32
  {
    (bytes[0] as nat) * 0x100_0000 + (bytes[1] as nat) * 0x1_0000 + (bytes[2] as nat) * 0x100 + (bytes[3] as nat)
  }

  lemma BigEndianRoundTrip(n: nat)
    requires n < TWO_TO_THE_32
    ensures FromBigEndian(BigEndian(n)) == n
  {
  }

  /** The most significant byte goes first. */
  lemma BigEndianIs(n: nat)
    requires n < TWO_TO_THE_32
    ensures var b := BigEndian(n);
            (b[0] as nat) * 16777216 + (b[1] as nat) * 65536 + (b[2] as nat) * 256 + (b[3] as nat) == n
  {
  }

  function Frame(m: Payload): seq<byte>
    requires |m| <= MAX_MESSAGE
  {
    BigEndian(|m|) + m
  }

  // ---------------------------------------------------------------- errors

  /** Go error values; the decoder formats its causes into new errors instead of wrapping them. */
  datatype Error =
    | EOF
    | UnexpectedEOF
    | Timeout
    | Closed
    | LengthFailed(cause: Error)
    | TooLarge(length: nat)
    | PayloadFailed(cause: Error)

  /** The text of the error contains "use of closed network connection". */
  predicate MentionsClosed(e: Error) {
    match e
    case Closed => true
    case LengthFailed(cause) => MentionsClosed(cause)
    case PayloadFailed(cause) => MentionsClosed(cause)
    case _ => false
  }

  /** A connection failure, as opposed to the end of the data. */
  predicate Interrupted(e: Error) {
    match e
    case LengthFailed(cause) => cause.Timeout? || cause.Closed?
    case PayloadFailed(cause) => cause.Timeout? || cause.Closed?
    case _ => false
  }

  // ---------------------------------------------------------------- decoding as a function of the data

  datatype Decoded = Message(payload: Payload, rest: seq<byte>) | Failure(error: Error)

  /** io.ReadFull's error when the data ends after `got` of the bytes asked for. */
  function ShortRead(got: nat): Error {
    if got == 0 then EOF else UnexpectedEOF
  }

  function DecodeOne(data: seq<byte>): Decoded {
    if |data| < 4 then Failure(LengthFailed(ShortRead(|data|)))
    else
      var length := FromBigEndian(data[..4]);
      if length == 0 then Message([], data[4..])
      else if length > MAX_MESSAGE then Failure(TooLarge(length))
      else if |data| - 4 < length then Failure(PayloadFailed(ShortRead(|data| - 4)))
      else Message(data[4..4 + length], data[4 + length..])
  }

  datatype Stream = Stream(messages: seq<Payload>, error: Error)

  /** The messages up to the first error, and that error. */
  function DecodeAll(data: seq<byte>): Stream
    decreases |data|
  {
    match DecodeOne(data)
    case Failure(e) => Stream([], e)
    case Message(m, rest) =>
      var later := DecodeAll(rest);
      Stream([m] + later.messages, later.error)
  }

  lemma DecodeAllMessage(data: seq<byte>, m: Payload, rest: seq<byte>)
    requires DecodeOne(data) == Message(m, rest)
    ensures DecodeAll(data) == Stream([m] + DecodeAll(rest).messages, DecodeAll(rest).error)
  {
  }

  // ---------------------------------------------------------------- round trip

  predicate Sendable(ms: seq<Payload>) {
    forall k | 0 <= k < |ms| :: |ms[k]| <= MAX_MESSAGE
  }

  /** The bytes that sending a message writes; an empty one writes nothing. */
  function SentAlone(m: Payload): seq<byte>
    requires |m| <= MAX_MESSAGE
  {
    if m == [] then [] else Frame(m)
  }

  /** The bytes that sending the messages one after the other writes. */
  function Sent(ms: seq<Payload>): seq<byte>
    requires Sendable(ms)
  {
    if ms == [] then [] else SentAlone(ms[0]) + Sent(ms[1..])
  }

  lemma {:induction false} SentMore(ms: seq<Payload>, m: Payload)
    requires Sendable(ms) && |m| <= MAX_MESSAGE
    ensures Sendable(ms + [m]) && Sent(ms + [m]) == Sent(ms) + SentAlone(m)
  {
    if ms == [] {
      assert Sent([m]) == SentAlone(m) + Sent([]);
      assert ms + [m] == [m];
    } else {
      SentMore(ms[1..], m);
      assert (ms + [m])[1..] == ms[1..] + [m];
      Regroup(SentAlone(ms[0]), Sent(ms[1..]), SentAlone(m));
    }
  }

  function NonEmpty(ms: seq<Payload>): seq<Payload> {
    if ms == [] then [] else (if ms[0] == [] then [] else [ms[0]]) + NonEmpty(ms[1..])
  }

  lemma DecodeFrame(m: Payload, rest: seq<byte>)
    requires 0 < |m| <= MAX_MESSAGE
    ensures DecodeOne(Frame(m) + rest) == Message(m, rest)
  {
    var data := Frame(m) + rest;
    assert data[..4] == BigEndian(|m|);
    BigEndianRoundTrip(|m|);
    assert data[4..4 + |m|] == m;
    assert data[4 + |m|..] == rest;
  }

  lemma DecodeAllFrame(m: Payload, rest: seq<byte>)
    requires 0 < |m| <= MAX_MESSAGE
    ensures DecodeAll(Frame(m) + rest) == Stream([m] + DecodeAll(rest).messages, DecodeAll(rest).error)
  {
    DecodeFrame(m, rest);
  }

  lemma PrependFrame(m: Payload, tail: seq<byte>, others: seq<Payload>, later: Stream)
    requires 0 < |m| <= MAX_MESSAGE
    requires DecodeAll(tail) == Stream(others + later.messages, later.error)
    ensures DecodeAll(Frame(m) + tail) == Stream([m] + others + later.messages, later.error)
  {
    DecodeAllFrame(m, tail);
    assert [m] + (others + later.messages) == [m] + others + later.messages;
  }

  /** Whatever follows the frames on the stream, the non-empty messages come out first and in order. */
  lemma {:induction false} DecodeSentThen(ms: seq<Payload>, rest: seq<byte>, later: Stream)
    requires Sendable(ms) && later == DecodeAll(rest)
    ensures DecodeAll(Sent(ms) + rest) == Stream(NonEmpty(ms) + later.messages, later.error)
  {
    if ms == [] {
      assert Sent(ms) + rest == rest;
      assert NonEmpty(ms) + later.messages == later.messages;
    } else {
      DecodeSentThen(ms[1..], rest, later);
      if ms[0] == [] {
        assert Sent(ms) == Sent(ms[1..]);
        assert NonEmpty(ms) == NonEmpty(ms[1..]);
      } else {
        SentHead(ms, rest);
        PrependFrame(ms[0], Sent(ms[1..]) + rest, NonEmpty(ms[1..]), later);
      }
    }
  }

  lemma SentHead(ms: seq<Payload>, rest: seq<byte>)
    requires Sendable(ms) && ms != [] && ms[0] != []
    ensures Sent(ms) + rest == Frame(ms[0]) + (Sent(ms[1..]) + rest)
  {
  }

  /** Decoding what was sent gives exactly the non-empty messages in order, then end of file. */
  lemma RoundTrip(ms: seq<Payload>)
    requires Sendable(ms)
    ensures DecodeAll(Sent(ms)) == Stream(NonEmpty(ms), LengthFailed(EOF))
  {
    DecodeSentThen(ms, [], DecodeAll([]));
    assert Sent(ms) + [] == Sent(ms);
    assert NonEmpty(ms) + [] == NonEmpty(ms);
  }

  /** A frame cut short is an error after the complete messages; the error tells where it was cut. */
  lemma TruncatedFrame(ms: seq<Payload>, m: Payload, cut: nat)
    requires Sendable(ms) && 0 < |m| <= MAX_MESSAGE && cut < 4 + |m|
    ensures DecodeAll(Sent(ms) + Frame(m)[..cut]) ==
            Stream(NonEmpty(ms),
                   if cut == 0 then LengthFailed(EOF) else if cut < 4 then LengthFailed(UnexpectedEOF)
                   else if cut == 4 then PayloadFailed(EOF) else PayloadFailed(UnexpectedEOF))
  {
    var rest := Frame(m)[..cut];
    DecodeSentThen(ms, rest, DecodeAll(rest));
    if cut >= 4 {
      assert rest[..4] == BigEndian(|m|);
      BigEndianRoundTrip(|m|);
    }
    assert DecodeAll(rest).messages == [];
    assert NonEmpty(ms) + [] == NonEmpty(ms);
  }

  /** What the first message contributes to the stream. */
  function First(ms: seq<Payload>): seq<byte>
    requires Sendable(ms) && ms != []
  {
    SentAlone(ms[0])
  }

  lemma SentTake(ms: seq<Payload>, d: nat)
    requires Sendable(ms) && ms != [] && d < |ms|
    ensures Sent(ms[..d + 1]) == First(ms) + Sent(ms[1..][..d])
  {
    assert ms[..d + 1][1..] == ms[1..][..d];
  }

  lemma TakeAcross<T>(a: seq<T>, b: seq<T>, cut: nat)
    requires |a| <= cut <= |a| + |b|
    ensures (a + b)[..cut] == a + b[..cut - |a|]
  {
  }

  lemma Regroup<T>(a: seq<T>, b: seq<T>, c: seq<T>)
    ensures a + (b + c) == a + b + c
  {
  }

  /** The bytes of message `done` that arrived before the cut. */
  function Fragment(ms: seq<Payload>, done: nat, inside: nat): seq<byte>
    requires Sendable(ms) && done <= |ms| && (done < |ms| ==> inside <= 4 + |ms[done]|)
  {
    if done == |ms| then [] else Frame(ms[done])[..inside]
  }

  /** The cut falls right before message `done`, or inside its frame. */
  ghost predicate CutAt(ms: seq<Payload>, cut: nat, done: nat, inside: nat)
    requires Sendable(ms) && cut <= |Sent(ms)|
  {
    && done <= |ms|
    && (if done == |ms| then inside == 0 else ms[done] != [] && inside < 4 + |ms[done]|)
    && Sent(ms)[..cut] == Sent(ms[..done]) + Fragment(ms, done, inside)
  }

  lemma CutNothing(cut: nat)
    requires cut <= |Sent([])|
    ensures CutAt([], cut, 0, 0)
  {
    var none: seq<Payload> := [];
    assert none[..0] == none;
  }

  lemma CutFirst(ms: seq<Payload>, cut: nat)
    requires Sendable(ms) && ms != [] && cut < |First(ms)|
    ensures cut <= |Sent(ms)| && CutAt(ms, cut, 0, cut)
  {
    assert Sent(ms) == First(ms) + Sent(ms[1..]);
    assert ms[..0] == [];
  }

  /** A cut of a later frame is the same seen from the whole stream. */
  lemma CutLater(ms: seq<Payload>, cut: nat, d: nat, i: nat)
    requires Sendable(ms) && ms != [] && |First(ms)| <= cut <= |First(ms)| + |Sent(ms[1..])|
    requires CutAt(ms[1..], cut - |First(ms)|, d, i)
    ensures cut <= |Sent(ms)| && CutAt(ms, cut, d + 1, i)
  {
    SentTake(ms, d);
    TakeAcross(First(ms), Sent(ms[1..]), cut);
    SameFragment(ms, d, i);
    Regroup(First(ms), Sent(ms[1..][..d]), Fragment(ms, d + 1, i));
  }

  lemma SameFragment(ms: seq<Payload>, d: nat, i: nat)
    requires Sendable(ms) && ms != [] && d <= |ms[1..]| && (d < |ms[1..]| ==> i <= 4 + |ms[1..][d]|)
    ensures Fragment(ms[1..], d, i) == Fragment(ms, d + 1, i)
  {
  }

  /** Every cut of the stream falls at a message boundary or inside some frame. */
  lemma {:induction false} AnyCut(ms: seq<Payload>, cut: nat) returns (done: nat, inside: nat)
    requires Sendable(ms) && cut <= |Sent(ms)|
    ensures CutAt(ms, cut, done, inside)
  {
    if ms == [] {
      done, inside := 0, 0;
      CutNothing(cut);
    } else if cut < |First(ms)| {
      done, inside := 0, cut;
      CutFirst(ms, cut);
    } else {
      var d, i := AnyCut(ms[1..], cut - |First(ms)|);
      done, inside := d + 1, i;
      CutLater(ms, cut, d, i);
    }
  }

  /** However the stream is cut short, what decodes is exactly the messages completely received. */
  lemma TruncatedAnywhere(ms: seq<Payload>, cut: nat) returns (done: nat)
    requires Sendable(ms) && cut <= |Sent(ms)|
    ensures done <= |ms| && DecodeAll(Sent(ms)[..cut]).messages == NonEmpty(ms[..done])
    ensures |Sent(ms[..done])| <= cut
    ensures done < |ms| ==> cut < |Sent(ms[..done])| + 4 + |ms[done]|
  {
    var inside;
    done, inside := AnyCut(ms, cut);
    if done == |ms| {
      assert ms[..done] == ms;
      RoundTrip(ms);
      assert Sent(ms)[..cut] == Sent(ms) + [];
      assert Sent(ms) + [] == Sent(ms);
    } else {
      TruncatedFrame(ms[..done], ms[done], inside);
    }
  }

  // ---------------------------------------------------------------- writers

  datatype SendError = MessageTooLarge | WriteFailed | IncompleteWrite

  /** How many bytes each write of the segmented sender carries after the length. */
  function SegmentSizes(n: nat): seq<nat> {
    if n == 0 then [] else if n <= SEGMENT then [n] else [SEGMENT] + SegmentSizes(n - SEGMENT)
  }

  function Itself(n: nat): nat {
    n
  }

  lemma {:induction false} TallyFront(n: nat, rest: seq<nat>)
    ensures Tally([n] + rest, Itself) == n + Tally(rest, Itself)
  {
    if rest == [] {
      TallyAppend([], n, Itself);
      assert [n] + rest == [] + [n];
    } else {
      var last := |rest| - 1;
      TallyFront(n, rest[..last]);
      assert ([n] + rest)[..|rest|] == [n] + rest[..last];
    }
  }

  /** No gap and no overlap: the segments add up to the data, and all but the last are of 1 MiB. */
  lemma {:induction false} SegmentsAddUp(n: nat)
    ensures Tally(SegmentSizes(n), Itself) == n
    ensures forall k | 0 <= k < |SegmentSizes(n)| :: 0 < SegmentSizes(n)[k] <= 1024 * 1024
    ensures forall k | 0 <= k < |SegmentSizes(n)| - 1 :: SegmentSizes(n)[k] == 1024 * 1024
  {
    if n > SEGMENT {
      SegmentsAddUp(n - SEGMENT);
      TallyFront(SEGMENT, SegmentSizes(n - SEGMENT));
    } else if n > 0 {
      TallyAppend([], n, Itself);
      assert [] + [n] == [n];
    }
  }

  /** One more segment of what is left. */
  lemma SegmentNext(before: seq<nat>, done: seq<nat>, left: nat)
    requires left > 0
    ensures var size := Min(SEGMENT, left);
            && before + (done + SegmentSizes(left)) == before + (done + [size] + SegmentSizes(left - size))
            && before + done + [size] == before + (done + [size])
            && before + done + [size] <= before + (done + SegmentSizes(left))
  {
  }

  /** What one more segment, or a beginning of it, adds to the stream. */
  lemma FrameMore(before: seq<byte>, length: seq<byte>, data: array<byte>, offset: nat, n: nat)
    requires |length| == 4 && offset + n <= data.Length
    ensures before + (length + data[..])[..4 + offset] + data[offset..offset + n]
            == before + (length + data[..])[..4 + offset + n]
  {
    var frame := length + data[..];
    assert data[offset..offset + n] == frame[4 + offset..4 + offset + n];
    assert frame[..4 + offset] + frame[4 + offset..4 + offset + n] == frame[..4 + offset + n];
    Regroup(before, frame[..4 + offset], data[offset..offset + n]);
  }

  method NewFrame(b: Payload) returns (data: array<byte>)
    requires |b| <= MAX_MESSAGE
    ensures fresh(data) && data[..] == Frame(b)
  {
    data := new byte[4 + |b|](_ => 0);
    var length := BigEndian(|b|);
    data[0], data[1], data[2], data[3] := length[0], length[1], length[2], length[3];
    forall k | 0 <= k < |b| {
      data[4 + k] := b[k];
    }
    assert data[..4] == length && data[4..] == b;
    assert data[..] == data[..4] + data[4..];
  }

  lemma PartOfFrame(data: array<byte>, b: Payload, n: nat)
    requires |b| <= MAX_MESSAGE && data[..] == Frame(b) && n <= data.Length
    ensures data.Length == 4 + |b| && data[0..n] == Frame(b)[..n]
    ensures n == data.Length ==> Frame(b)[..n] == Frame(b)
  {
    assert data[0..n] == data[..][..n];
    assert |data[..]| == data.Length;
  }

  /** The sending side of a connection, with everything written to it so far. */
  class Connection {
    ghost var written: seq<byte>
    ghost var sizes: seq<nat>    // how much each write was asked to write
    ghost var faults: nat        // how many writes failed or stopped short

    constructor ()
      ensures written == [] && sizes == [] && faults == 0
    {
      written, sizes, faults := [], [], 0;
    }

    /** A write may fail or stop short; some prefix has then gone out. */
    method Write(data: array<byte>, lo: nat, hi: nat) returns (n: nat, failed: bool)
      requires lo <= hi <= data.Length
      modifies this
      ensures n <= hi - lo
      ensures written == old(written) + data[lo..lo + n] && sizes == old(sizes) + [hi - lo]
      ensures faults == old(faults) + if failed || n < hi - lo then 1 else 0
    {
      n :| 0 <= n <= hi - lo;
      failed := *;
      written, sizes := written + data[lo..lo + n], sizes + [hi - lo];
      if failed || n < hi - lo {
        faults := faults + 1;
      }
    }

    /** Writes four bytes, all of them unless an error is reported. */
    method WriteLength(length: nat) returns (ghost n: nat, failed: bool)
      requires length < TWO_TO_THE_32
      modifies this
      ensures n <= 4 && (!failed ==> n == 4)
      ensures written == old(written) + BigEndian(length)[..n] && sizes == old(sizes) + [4]
      ensures faults == old(faults) + if failed then 1 else 0
    {
      failed := *;
      n := 4;
      if failed {
        n :| 0 <= n <= 4;
        faults := faults + 1;
      }
      written, sizes := written + BigEndian(length)[..n], sizes + [4];
    }

    /** One frame in one write, nothing for an empty message, a refusal above 17 MiB. */
    method Send(b: Payload) returns (r: Result<(), SendError>, ghost sent: nat)
      modifies this
      ensures r == Err(MessageTooLarge) <==> |b| > 17 * 1024 * 1024
      ensures r.Ok? || r == Err(MessageTooLarge) <==> faults == old(faults)
      ensures sizes == old(sizes) + if 0 < |b| <= 17 * 1024 * 1024 then [4 + |b|] else []
      ensures |b| > MAX_MESSAGE || b == [] ==> written == old(written)
      ensures 0 < |b| <= MAX_MESSAGE ==> sent <= 4 + |b| && written == old(written) + Frame(b)[..sent]
      ensures r.Ok? ==> written == old(written) + SentAlone(b)
    {
      sent := 0;
      if |b| == 0 {
        return Ok(()), 0;
      }
      if |b| > MAX_MESSAGE {
        return Err(MessageTooLarge), 0;
      }
      var data := NewFrame(b);
      var n, failed := Write(data, 0, data.Length);
      sent := n;
      PartOfFrame(data, b, n);
      if failed {
        return Err(WriteFailed), sent;
      }
      if n != data.Length {
        return Err(IncompleteWrite), sent;
      }
      return Ok(()), sent;
    }

    /** One round of the segmented sender. */
    method WriteSegment(data: array<byte>, lo: nat, hi: nat, ghost before: seq<byte>, ghost length: seq<byte>)
      returns (n: nat, failed: bool)
      requires lo <= hi <= data.Length && |length| == 4
      requires written == before + (length + data[..])[..4 + lo]
      modifies this
      ensures n <= hi - lo
      ensures written == before + (length + data[..])[..4 + lo + n] && sizes == old(sizes) + [hi - lo]
      ensures faults == old(faults) + if failed || n < hi - lo then 1 else 0
    {
      n, failed := Write(data, lo, hi);
      FrameMore(before, length, data, lo, n);
    }

    /** The seeder's sender: a length that wraps at 32 bits, then the data in segments. */
    method SendSegmented(data: array<byte>) returns (r: Result<(), SendError>, ghost sent: nat)
      modifies this
      ensures var frame := BigEndian(data.Length % TWO_TO_THE_32) + data[..];
              && sent <= |frame|
              && written == old(written) + frame[..sent]
              && (r.Ok? ==> written == old(written) + frame)
      ensures r.Ok? <==> faults == old(faults)
      ensures sizes <= old(sizes) + ([4] + SegmentSizes(data.Length))
      ensures r.Ok? ==> sizes == old(sizes) + ([4] + SegmentSizes(data.Length))
    {
      ghost var frame := BigEndian(data.Length % TWO_TO_THE_32) + data[..];
      ghost var header;
      var failed;
      header, failed := WriteLength(data.Length % TWO_TO_THE_32);
      sent := header;
      ghost var done: seq<nat> := [4];
      assert BigEndian(data.Length % TWO_TO_THE_32)[..sent] == frame[..sent];
      if failed {
        return Err(WriteFailed), sent;
      }
      var offset := 0;
      while offset < data.Length
        invariant offset <= data.Length && sent == 4 + offset
        invariant written == old(written) + frame[..sent] && faults == old(faults)
        invariant sizes == old(sizes) + done
        invariant old(sizes) + (done + SegmentSizes(data.Length - offset))
               == old(sizes) + ([4] + SegmentSizes(data.Length))
      {
        var end := offset + SEGMENT;
        if end > data.Length {
          end := data.Length;
        }
        SegmentNext(old(sizes), done, data.Length - offset);
        var n, broken := WriteSegment(data, offset, end, old(written), BigEndian(data.Length % TWO_TO_THE_32));
        sent := 4 + offset + n;
        if broken {
          return Err(WriteFailed), sent;
        }
        if n != end - offset {
          return Err(IncompleteWrite), sent;
        }
        done := done + [end - offset];
        offset := end;
      }
      assert frame[..sent] == frame;
      assert done + [] == done;
      r := Ok(());
    }
  }

  lemma SentNext(ms: seq<Payload>, k: nat, before: seq<byte>)
    requires k < |ms| && Sendable(ms[..k]) && |ms[k]| <= MAX_MESSAGE
    ensures Sendable(ms[..k + 1])
    ensures before + Sent(ms[..k]) + SentAlone(ms[k]) == before + Sent(ms[..k + 1])
  {
    SentMore(ms[..k], ms[k]);
    assert ms[..k] + [ms[k]] == ms[..k + 1];
    Regroup(before, Sent(ms[..k]), SentAlone(ms[k]));
  }

  /** Sending messages one after the other, until one cannot be sent, writes what Sent says. */
  method SendAll(conn: Connection, ms: seq<Payload>) returns (r: Result<(), SendError>, done: nat)
    modifies conn
    ensures done <= |ms| && Sendable(ms[..done]) && (r.Ok? <==> done == |ms|)
    ensures r.Ok? ==> Sendable(ms) && conn.written == old(conn.written) + Sent(ms)
    ensures r.Ok? || r == Err(MessageTooLarge) <==> conn.faults == old(conn.faults)
    ensures r == Err(MessageTooLarge) ==>
              |ms[done]| > MAX_MESSAGE && conn.written == old(conn.written) + Sent(ms[..done])
  {
    done := 0;
    assert ms[..0] == [];
    while done < |ms|
      invariant done <= |ms| && Sendable(ms[..done])
      invariant conn.written == old(conn.written) + Sent(ms[..done]) && conn.faults == old(conn.faults)
    {
      ghost var sent;
      r, sent := conn.Send(ms[done]);
      if r.Err? {
        return;
      }
      SentNext(ms, done, old(conn.written));
      done := done + 1;
    }
    assert ms[..done] == ms;
    r := Ok(());
  }

  /** For a payload of 1 byte to 17 MiB both writers produce the same bytes, so the decoder cannot tell them apart. */
  lemma WritersAgree(m: Payload, rest: seq<byte>)
    requires 0 < |m| <= MAX_MESSAGE
    ensures BigEndian(|m| % TWO_TO_THE_32) + m == Frame(m)
    ensures DecodeOne(BigEndian(|m| % TWO_TO_THE_32) + m + rest) == Message(m, rest)
  {
    FitsLength(|m|);
    DecodeFrame(m, rest);
  }

  lemma FitsLength(n: nat)
    requires n < TWO_TO_THE_32
    ensures n % TWO_TO_THE_32 == n
  {
  }

  /**
   What the segmented sender writes is read back as it was, whatever follows, if and only if the
   payload is at most 17 MiB. Above that the decoder sees the length modulo 2^32: it refuses the
   message, or, when the length has wrapped to at most 17 MiB, takes a shorter one for it.
   */
  lemma SegmentedReadBackExactly(m: Payload, rest: seq<byte>)
    ensures DecodeOne(BigEndian(|m| % TWO_TO_THE_32) + m + rest) == Message(m, rest) <==> |m| <= 17 * 1024 * 1024
    ensures |m| > 17 * 1024 * 1024 ==>
              var length := |m| % TWO_TO_THE_32;
              DecodeOne(BigEndian(length) + m + rest) ==
              if length > MAX_MESSAGE then Failure(TooLarge(length))
              else Message((m + rest)[..length], (m + rest)[length..])
  {
    var length := |m| % TWO_TO_THE_32;
    var data := BigEndian(length) + m + rest;
    Regroup(BigEndian(length), m, rest);
    assert data[..4] == BigEndian(length);
    assert data[4..] == m + rest;
    BigEndianRoundTrip(length);
    if |m| <= MAX_MESSAGE {
      assert data[4..4 + |m|] == m && data[4 + |m|..] == rest;
    } else if length <= MAX_MESSAGE {
      assert data[4..4 + length] == (m + rest)[..length];
      assert data[4 + length..] == (m + rest)[length..];
    }
  }

  // ---------------------------------------------------------------- reader

  /**
   The receiving side. The data arrives in whatever pieces the network likes; a read may also be
   cut off by a timeout or by the connection being closed.
   */
  class Receiver {
    const data: seq<byte>
    var pos: nat
    ghost var faults: nat    // how many reads timed out or found the connection closed

    constructor (data: seq<byte>)
      ensures this.data == data && pos == 0 && faults == 0
    {
      this.data, pos, faults := data, 0, 0;
    }

    ghost predicate Valid()
      reads this
    {
      pos <= |data|
    }

    ghost function Remaining(): seq<byte>
      requires Valid()
      reads this
    {
      data[pos..]
    }

    /** One read: at least one byte of what is left, or an error and nothing. */
    method Read(buf: array<byte>, start: nat) returns (n: nat, error: Option<Error>)
      requires Valid() && start < buf.Length
      modifies this`pos, this`faults, buf
      ensures faults == old(faults) + if error == Some(Timeout) || error == Some(Closed) then 1 else 0
      ensures Valid() && pos == old(pos) + n && n <= buf.Length - start
      ensures error.None? <==> n > 0
      ensures buf[..start] == old(buf[..start]) && buf[start..start + n] == old(Remaining())[..n]
      ensures error == Some(EOF) ==> old(Remaining()) == []
      ensures error.Some? ==> error.value in {EOF, Timeout, Closed}
    {
      var broken := *;
      if broken {
        faults := faults + 1;
        return 0, Some(Timeout);
      }
      broken := *;
      if broken {
        faults := faults + 1;
        return 0, Some(Closed);
      }
      if pos == |data| {
        return 0, Some(EOF);
      }
      var most: nat := Min(buf.Length - start, |data| - pos);
      assert 1 <= most;
      n :| 1 <= n <= most;
      forall k | 0 <= k < n {
        buf[start + k] := data[pos + k];
      }
      pos := pos + n;
      error := None;
    }

    /**
     io.ReadFull: fills the buffer from as many reads as it takes. How the reads were cut up leaves
     no trace: without an interruption, success and content depend on the data alone.
     */
    method ReadFull(buf: array<byte>) returns (error: Option<Error>)
      requires Valid() && buf.Length > 0
      modifies this`pos, this`faults, buf
      ensures Valid() && old(pos) <= pos
      ensures faults == old(faults) + if error == Some(Timeout) || error == Some(Closed) then 1 else 0
      ensures error.None? ==> buf.Length <= |old(Remaining())| && buf[..] == old(Remaining())[..buf.Length]
                              && Remaining() == old(Remaining())[buf.Length..]
      ensures error.Some? && !error.value.Timeout? && !error.value.Closed? ==>
                |old(Remaining())| < buf.Length && error.value == ShortRead(|old(Remaining())|)
    {
      var n := 0;
      error := None;
      while n < buf.Length && error.None?
        invariant Valid() && n <= buf.Length && pos == old(pos) + n
        invariant buf[..n] == old(Remaining())[..n]
        invariant error.Some? ==> error.value in {EOF, Timeout, Closed} && n < buf.Length
        invariant faults == old(faults) + if error == Some(Timeout) || error == Some(Closed) then 1 else 0
        invariant error == Some(EOF) ==> Remaining() == []
        decreases buf.Length - n, error.None?
      {
        ghost var before := n;
        var got;
        got, error := Read(buf, n);
        n := n + got;
        assert buf[..n] == buf[..before] + buf[before..n];
        assert old(Remaining())[..n] == old(Remaining())[..before] + old(Remaining())[before..][..got];
      }
      if n == buf.Length {
        assert buf[..] == buf[..n];
        return None;
      }
      if n > 0 && error == Some(EOF) {
        return Some(UnexpectedEOF);
      }
    }
  }

  /** One message from the connection; an error always comes out reformatted, never as it went in. */
  method Decode(r: Receiver) returns (result: Result<Payload, Error>)
    requires r.Valid()
    modifies r`pos, r`faults
    ensures r.Valid()
    ensures result.Err? && Interrupted(result.error) <==> r.faults != old(r.faults)
    ensures result.Ok? ==> DecodeOne(old(r.Remaining())) == Message(result.value, r.Remaining())
    ensures result.Err? ==> Interrupted(result.error) || DecodeOne(old(r.Remaining())) == Failure(result.error)
    ensures result.Err? ==> result.error.LengthFailed? || result.error.TooLarge? || result.error.PayloadFailed?
  {
    ghost var data := r.Remaining();
    var lengthBuf := new byte[4](_ => 0);
    var error := r.ReadFull(lengthBuf);
    if error.Some? {
      return Err(LengthFailed(error.value));
    }
    var length := FromBigEndian(lengthBuf[..]);
    assert lengthBuf[..] == data[..4];
    if length == 0 {
      return Ok([]);
    }
    if length > MAX_MESSAGE {
      return Err(TooLarge(length));
    }
    var payload := new byte[length](_ => 0);
    error := r.ReadFull(payload);
    if error.Some? {
      return Err(PayloadFailed(error.value));
    }
    assert data[4..][..length] == data[4..4 + length];
    assert data[4..][length..] == data[4 + length..];
    return Ok(payload[..]);
  }

  /** `part` is `whole` with the elements at the positions not in `kept` left out. */
  ghost predicate Selects(part: seq<Payload>, whole: seq<Payload>, kept: seq<nat>) {
    && |part| == |kept|
    && (forall k | 0 <= k < |kept| :: kept[k] < |whole| && part[k] == whole[kept[k]])
    && (forall j, k | 0 <= j < k < |kept| :: kept[j] < kept[k])
  }

  /** A new message at the end of the whole may be selected or not. */
  lemma SelectsMore(part: seq<Payload>, whole: seq<Payload>, kept: seq<nat>, m: Payload)
    requires Selects(part, whole, kept)
    ensures Selects(part, whole + [m], kept)
    ensures Selects(part + [m], whole + [m], kept + [|whole|])
  {
  }

  /** What has been decoded, and what decodes from the rest, is the whole stream. */
  ghost predicate SoFar(all: Stream, decoded: seq<Payload>, rest: seq<byte>) {
    all == Stream(decoded + DecodeAll(rest).messages, DecodeAll(rest).error)
  }

  lemma OneMoreDecoded(all: Stream, decoded: seq<Payload>, data: seq<byte>, m: Payload, rest: seq<byte>)
    requires SoFar(all, decoded, data) && DecodeOne(data) == Message(m, rest)
    ensures SoFar(all, decoded + [m], rest)
  {
    DecodeAllMessage(data, m, rest);
    Regroup(decoded, [m], DecodeAll(rest).messages);
  }

  /** The channel to which received messages go; it is full as long as nobody takes anything out. */
  class RpcChannel {
    ghost var accepted: seq<Payload>
    ghost var refusals: nat

    constructor ()
      ensures accepted == [] && refusals == 0
    {
      accepted, refusals := [], 0;
    }

    /** Sends the message unless the channel stays full for a second. */
    method Offer(m: Payload) returns (full: bool)
      modifies this
      ensures full ==> accepted == old(accepted) && refusals == old(refusals) + 1
      ensures !full ==> accepted == old(accepted) + [m] && refusals == old(refusals)
    {
      full := *;
      if full {
        refusals := refusals + 1;
      } else {
        accepted := accepted + [m];
      }
    }
  }

  /** Hands one message to the channel. */
  method Forward(
    rpcch: RpcChannel, m: Payload, ghost before: seq<Payload>,
    ghost forwarded: seq<Payload>, ghost decoded: seq<Payload>, ghost kept: seq<nat>)
    returns (ghost forwarded': seq<Payload>, ghost kept': seq<nat>)
    requires rpcch.accepted == before + forwarded && Selects(forwarded, decoded, kept)
    modifies rpcch
    ensures rpcch.accepted == before + forwarded' && Selects(forwarded', decoded + [m], kept')
    ensures |forwarded'| + rpcch.refusals == |forwarded| + old(rpcch.refusals) + 1
  {
    SelectsMore(forwarded, decoded, kept, m);
    var full := rpcch.Offer(m);
    forwarded', kept' := forwarded, kept;
    if !full {
      forwarded', kept' := forwarded + [m], kept + [|decoded|];
    }
  }

  /**
   The receive loop. What is decoded is the stream's messages up to an interruption, if any; what is
   forwarded is that in order without the messages refused by a full channel, and nothing else is
   left out. The first decode error of any kind ends the loop: the decoder's errors never match its
   end-of-file or timeout cases.
   */
  method HandleConn(r: Receiver, rpcch: RpcChannel)
    returns (error: Error, retries: nat,
             ghost forwarded: seq<Payload>, ghost decoded: seq<Payload>, ghost kept: seq<nat>)
    requires r.Valid()
    modifies r`pos, r`faults, rpcch
    ensures r.Valid()
    ensures rpcch.accepted == old(rpcch.accepted) + forwarded
    ensures Selects(forwarded, decoded, kept)
    ensures |forwarded| + (rpcch.refusals - old(rpcch.refusals)) == |decoded|
    ensures rpcch.refusals == old(rpcch.refusals) ==> forwarded == decoded
    ensures decoded <= DecodeAll(old(r.Remaining())).messages
    ensures r.faults == old(r.faults) ==> Stream(decoded, error) == DecodeAll(old(r.Remaining()))
    ensures r.faults != old(r.faults) ==> Interrupted(error)
    ensures retries == 0
  {
    forwarded, decoded, kept, retries := [], [], [], 0;
    ghost var all := DecodeAll(r.Remaining());
    while true
      invariant r.Valid() && retries == 0 && r.faults == old(r.faults)
      invariant rpcch.accepted == old(rpcch.accepted) + forwarded
      invariant |forwarded| + (rpcch.refusals - old(rpcch.refusals)) == |decoded|
      invariant Selects(forwarded, decoded, kept)
      invariant SoFar(all, decoded, r.Remaining())
      decreases |r.Remaining()|
    {
      ghost var data := r.Remaining();
      var result := Decode(r);
      if result.Err? {
        error := result.error;
        if error == EOF || MentionsClosed(error) {
          break;
        }
        if error == Timeout {
          assert false;
        }
        break;
      }
      retries := 0;
      OneMoreDecoded(all, decoded, data, result.value, r.Remaining());
      forwarded, kept := Forward(rpcch, result.value, old(rpcch.accepted), forwarded, decoded, kept);
      decoded := decoded + [result.value];
    }
    if |forwarded| == |decoded| {
      NothingDropped(forwarded, decoded, kept);
    }
  }

  /** When nothing was dropped, what was selected is everything. */
  lemma {:induction false} NothingDropped(part: seq<Payload>, whole: seq<Payload>, kept: seq<nat>)
    requires Selects(part, whole, kept) && |part| == |whole|
    ensures part == whole
  {
    forall k | 0 <= k < |kept| ensures kept[k] == k {
      LowerBound(kept, |whole|, k);
    }
  }

  lemma {:induction false} LowerBound(kept: seq<nat>, n: nat, k: nat)
    requires k < |kept| == n && forall i, j | 0 <= i < j < |kept| :: kept[i] < kept[j]
    requires forall i | 0 <= i < |kept| :: kept[i] < n
    ensures kept[k] == k
  {
    AtLeast(kept, k);
    AtMost(kept, n, n - 1 - k);
  }

  lemma {:induction false} AtLeast(kept: seq<nat>, k: nat)
    requires k < |kept| && forall i, j | 0 <= i < j < |kept| :: kept[i] < kept[j]
    ensures kept[k] >= k
  {
    if k > 0 {
      AtLeast(kept, k - 1);
    }
  }

  lemma {:induction false} AtMost(kept: seq<nat>, n: nat, d: nat)
    requires d < |kept| == n && forall i, j | 0 <= i < j < |kept| :: kept[i] < kept[j]
    requires forall i | 0 <= i < |kept| :: kept[i] < n
    ensures kept[n - 1 - d] <= n - 1 - d
  {
    if d > 0 {
      AtMost(kept, n, d - 1);
    }
  }
}
