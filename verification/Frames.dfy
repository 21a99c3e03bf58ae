/** Binary framing of the streaming channel, `length (4) || counter (8) ||
    ciphertext`, and the incremental reader that recovers frames from a byte
    stream delivered in arbitrary chunks. */
module Frames {
  import opened Bytes
  import opened Outcomes

  datatype Frame = Frame(counter: nat, ciphertext: bytes)

  predicate ValidFrame(f: Frame) {
    f.counter < U64_SIZE && |f.ciphertext| < U32_SIZE
  }

  function Encode(f: Frame): bytes {
    BigEndian(|f.ciphertext|, 4) + BigEndian(f.counter, 8) + f.ciphertext
  }

  function EncodeAll(fs: seq<Frame>): bytes {
    if |fs| == 0 then [] else Encode(fs[0]) + EncodeAll(fs[1..])
  }

  ghost predicate AllValid(fs: seq<Frame>) {
    forall i :: 0 <= i < |fs| ==> ValidFrame(fs[i])
  }

  /** The frame at the front of a buffer, if all of it is there. */
  function TakeFrame(buffer: bytes): Option<(Frame, bytes)> {
    if |buffer| < 4 then None
    else
      var len := FromBigEndian(buffer[..4]);
      if |buffer| < 4 + 8 + len then None
      else Some((Frame(FromBigEndian(buffer[4..12]), buffer[12..12 + len]), buffer[12 + len..]))
  }

  lemma TakeFrameSound(buffer: bytes)
    requires TakeFrame(buffer).Some?
    ensures var (f, rest) := TakeFrame(buffer).value;
            ValidFrame(f) && buffer == Encode(f) + rest
  {
    var len := FromBigEndian(buffer[..4]);
    WidthSizes();
    FromBigEndianBound(buffer[..4]);
    FromBigEndianBound(buffer[4..12]);
    EncodeDecode(buffer[..4]);
    EncodeDecode(buffer[4..12]);
    assert buffer == buffer[..4] + buffer[4..12] + buffer[12..12 + len] + buffer[12 + len..];
  }

  lemma TakeFrameComplete(f: Frame, rest: bytes)
    requires ValidFrame(f)
    ensures TakeFrame(Encode(f) + rest) == Some((f, rest))
  {
    var buffer := Encode(f) + rest;
    WidthSizes();
    DecodeEncode(|f.ciphertext|, 4);
    DecodeEncode(f.counter, 8);
    assert buffer[..4] == BigEndian(|f.ciphertext|, 4);
    assert buffer[4..12] == BigEndian(f.counter, 8);
    assert buffer[12..12 + |f.ciphertext|] == f.ciphertext;
    assert buffer[12 + |f.ciphertext|..] == rest;
  }

  /** Bytes that arrive later do not change the frame found at the front. */
  lemma TakeFrameStable(buffer: bytes, more: bytes)
    requires TakeFrame(buffer).Some?
    ensures var (f, rest) := TakeFrame(buffer).value;
            TakeFrame(buffer + more) == Some((f, rest + more))
  {
    var (f, rest) := TakeFrame(buffer).value;
    TakeFrameSound(buffer);
    ConcatAssoc(Encode(f), rest, more);
    TakeFrameComplete(f, rest + more);
  }

  /** One-shot parse of a whole byte string: its frames and the bytes left over. */
  function Split(b: bytes): (r: (seq<Frame>, bytes))
    decreases |b|
  {
    match TakeFrame(b)
    case None => ([], b)
    case Some((f, rest)) =>
      var (fs, last) := Split(rest);
      ([f] + fs, last)
  }

  /** The one-shot parse writes the string as frames followed by an incomplete rest. */
  lemma {:induction false} SplitSound(b: bytes)
    ensures var (fs, last) := Split(b);
            AllValid(fs) && b == EncodeAll(fs) + last && TakeFrame(last).None?
    decreases |b|
  {
    if TakeFrame(b).Some? {
      var (f, rest) := TakeFrame(b).value;
      TakeFrameSound(b);
      SplitSound(rest);
      var (fs, last) := Split(rest);
      assert ([f] + fs)[1..] == fs;
      ConcatAssoc(Encode(f), EncodeAll(fs), last);
    }
  }

  /** There is no other way to write it so. */
  lemma {:induction false} SplitUnique(fs: seq<Frame>, last: bytes)
    requires AllValid(fs) && TakeFrame(last).None?
    ensures Split(EncodeAll(fs) + last) == (fs, last)
  {
    if |fs| == 0 {
      assert EncodeAll(fs) + last == last;
    } else {
      SplitUnique(fs[1..], last);
      ConcatAssoc(Encode(fs[0]), EncodeAll(fs[1..]), last);
      TakeFrameComplete(fs[0], EncodeAll(fs[1..]) + last);
      assert fs == [fs[0]] + fs[1..];
    }
  }

  // ---- the incremental reader ----

  /** What the transport yields: a chunk of body bytes, or an I/O error. */
  datatype Item = Chunk(data: bytes) | Broken(error: string)

  datatype Outcome =
    | Got(frame: Frame)
    | End
    | Incomplete
    | Transport(error: string)

  /** The bytes that will arrive before the transport breaks or ends. */
  function Ahead(stream: seq<Item>): bytes {
    if |stream| == 0 || stream[0].Broken? then [] else stream[0].data + Ahead(stream[1..])
  }

  /** The stream from its first error on. */
  function Beyond(stream: seq<Item>): (r: seq<Item>)
    ensures |r| <= |stream| && (|r| > 0 ==> r[0].Broken?)
  {
    if |stream| == 0 || stream[0].Broken? then stream else Beyond(stream[1..])
  }

  class StreamFrameReader {
    var stream: seq<Item>
    var buffer: bytes

    constructor (source: seq<Item>)
      ensures stream == source && buffer == []
    {
      stream := source;
      buffer := [];
    }

    /** Everything buffered or still to come before the next error. */
    function Pending(): bytes
      reads this
    {
      buffer + Ahead(stream)
    }

    /** The next frame is the first frame of the pending bytes, however they are
        cut into chunks; without one, all pending bytes are in the buffer and the
        end of the stream or its first error is reported. */
    method NextFrame() returns (r: Outcome)
      modifies this
      ensures match old(TakeFrame(Pending()))
              case Some((f, rest)) =>
                r == Got(f) && Pending() == rest && Beyond(stream) == old(Beyond(stream))
              case None =>
                && buffer == old(Pending())
                && (if old(Beyond(stream)) == [] then
                      r == (if buffer == [] then End else Incomplete) && stream == []
                    else
                      r == Transport(old(Beyond(stream))[0].error) && stream == old(Beyond(stream))[1..])
    {
      while true
        invariant Pending() == old(Pending()) && Beyond(stream) == old(Beyond(stream))
        decreases |stream|
      {
        if |buffer| >= 4 {
          var len := FromBigEndian(buffer[..4]);
          if |buffer| >= 4 + 8 + len {
            TakeFrameStable(buffer, Ahead(stream));
            var rest := buffer[4..];
            var counter := FromBigEndian(rest[..8]);
            rest := rest[8..];
            var ciphertext := rest[..len];
            assert buffer[4..][..8] == buffer[4..12] && ciphertext == buffer[12..12 + len];
            assert rest[len..] == buffer[12 + len..];
            buffer := rest[len..];
            return Got(Frame(counter, ciphertext));
          }
        }
        assert TakeFrame(buffer).None? && buffer + [] == buffer;
        if |stream| == 0 {
          return if buffer == [] then End else Incomplete;
        }
        var item := stream[0];
        stream := stream[1..];
        match item {
          case Chunk(data) =>
            ConcatAssoc(buffer, data, Ahead(stream));
            buffer := buffer + data;
          case Broken(e) =>
            return Transport(e);
        }
      }
    }
  }

  /** The frames read so far and the pending bytes make up the whole. */
  ghost predicate Progress(whole: (seq<Frame>, bytes), frames: seq<Frame>, pending: bytes) {
    whole.0 == frames + Split(pending).0 && whole.1 == Split(pending).1
  }

  lemma ProgressNext(whole: (seq<Frame>, bytes), frames: seq<Frame>, pending: bytes, f: Frame, rest: bytes)
    requires Progress(whole, frames, pending) && TakeFrame(pending) == Some((f, rest))
    ensures Progress(whole, frames + [f], rest)
  {
    assert Split(pending) == ([f] + Split(rest).0, Split(rest).1);
    assert frames + ([f] + Split(rest).0) == (frames + [f]) + Split(rest).0;
  }

  lemma ProgressDone(whole: (seq<Frame>, bytes), frames: seq<Frame>, pending: bytes)
    requires Progress(whole, frames, pending) && TakeFrame(pending).None?
    ensures whole == (frames, pending)
  {
    assert Split(pending) == ([], pending) && frames + [] == frames;
  }

  /** Reads frames until the reader reports anything else. */
  method ReadAll(source: seq<Item>) returns (frames: seq<Frame>, last: Outcome)
    ensures frames == Split(Ahead(source)).0
    ensures last == if Beyond(source) != [] then Transport(Beyond(source)[0].error)
                    else if Split(Ahead(source)).1 == [] then End
                    else Incomplete
  {
    var reader := new StreamFrameReader(source);
    frames := [];
    ghost var whole := Split(Ahead(source));
    assert reader.Pending() == Ahead(source);
    while true
      invariant fresh(reader) && Beyond(reader.stream) == Beyond(source)
      invariant Progress(whole, frames, reader.Pending())
      decreases |reader.Pending()|
    {
      ghost var pending := reader.Pending();
      last := reader.NextFrame();
      if last.Got? {
        ProgressNext(whole, frames, pending, last.frame, reader.Pending());
        frames := frames + [last.frame];
      } else {
        ProgressDone(whole, frames, pending);
        return;
      }
    }
  }

  // ---- polling on ----

  /** All bytes of the transport, errors or not. */
  function Data(stream: seq<Item>): bytes {
    if |stream| == 0 then []
    else if stream[0].Broken? then Data(stream[1..])
    else stream[0].data + Data(stream[1..])
  }

  function Errors(stream: seq<Item>): seq<string> {
    if |stream| == 0 then []
    else if stream[0].Broken? then [stream[0].error] + Errors(stream[1..])
    else Errors(stream[1..])
  }

  lemma {:induction false} DataSplits(stream: seq<Item>)
    ensures Data(stream) == Ahead(stream) + Data(Beyond(stream))
    ensures Errors(stream) == Errors(Beyond(stream))
  {
    if |stream| > 0 && stream[0].Chunk? {
      DataSplits(stream[1..]);
      ConcatAssoc(stream[0].data, Ahead(stream[1..]), Data(Beyond(stream)));
    }
  }

  /** The frames read so far, and what is buffered or still to come, errors or not. */
  ghost predicate Reading(whole: (seq<Frame>, bytes), frames: seq<Frame>, buffer: bytes, stream: seq<Item>) {
    Progress(whole, frames, buffer + Data(stream))
  }

  lemma ReadingGot(whole: (seq<Frame>, bytes), frames: seq<Frame>, buffer: bytes, stream: seq<Item>,
                   f: Frame, buffer': bytes, stream': seq<Item>)
    requires Reading(whole, frames, buffer, stream) && Beyond(stream') == Beyond(stream)
    requires TakeFrame(buffer + Ahead(stream)) == Some((f, buffer' + Ahead(stream')))
    ensures Reading(whole, frames + [f], buffer', stream') && Errors(stream') == Errors(stream)
  {
    var beyond := Data(Beyond(stream));
    DataSplits(stream);
    DataSplits(stream');
    ConcatAssoc(buffer, Ahead(stream), beyond);
    ConcatAssoc(buffer', Ahead(stream'), beyond);
    TakeFrameStable(buffer + Ahead(stream), beyond);
    ProgressNext(whole, frames, buffer + Data(stream), f, buffer' + Data(stream'));
  }

  lemma ReadingBroken(whole: (seq<Frame>, bytes), frames: seq<Frame>, buffer: bytes, stream: seq<Item>)
    requires Reading(whole, frames, buffer, stream) && Beyond(stream) != []
    ensures Reading(whole, frames, buffer + Ahead(stream), Beyond(stream)[1..])
    ensures Errors(stream) == [Beyond(stream)[0].error] + Errors(Beyond(stream)[1..])
  {
    DataSplits(stream);
    ConcatAssoc(buffer, Ahead(stream), Data(Beyond(stream)));
  }

  lemma ReadingDone(whole: (seq<Frame>, bytes), frames: seq<Frame>, buffer: bytes, stream: seq<Item>)
    requires Reading(whole, frames, buffer, stream) && Beyond(stream) == [] && TakeFrame(buffer + Ahead(stream)).None?
    ensures whole == (frames, buffer + Ahead(stream)) && Errors(stream) == []
  {
    DataSplits(stream);
    assert Ahead(stream) + [] == Ahead(stream);
    ProgressDone(whole, frames, buffer + Data(stream));
  }

  lemma ErrorNext(errors: seq<string>, error: string, stream: seq<Item>)
    ensures errors + ([error] + Errors(stream)) == errors + [error] + Errors(stream)
  {
  }

  /** Polls the reader past transport errors until the transport is used up: an error
      loses no bytes. After that the reader keeps giving the same answer. */
  method ReadOn(source: seq<Item>) returns (frames: seq<Frame>, errors: seq<string>, last: Outcome)
    ensures frames == Split(Data(source)).0 && errors == Errors(source)
    ensures last == if Split(Data(source)).1 == [] then End else Incomplete
  {
    var reader := new StreamFrameReader(source);
    frames, errors := [], [];
    ghost var whole := Split(Data(source));
    assert [] + Data(source) == Data(source) && [] + Errors(source) == Errors(source);
    while true
      invariant fresh(reader)
      invariant Reading(whole, frames, reader.buffer, reader.stream)
      invariant Errors(source) == errors + Errors(reader.stream)
      decreases |Beyond(reader.stream)|, |reader.Pending()|
    {
      ghost var buffer, stream := reader.buffer, reader.stream;
      last := reader.NextFrame();
      match last {
        case Got(frame) =>
          ReadingGot(whole, frames, buffer, stream, frame, reader.buffer, reader.stream);
          frames := frames + [frame];
        case Transport(error) =>
          ReadingBroken(whole, frames, buffer, stream);
          ErrorNext(errors, error, reader.stream);
          errors := errors + [error];
        case _ =>
          ReadingDone(whole, frames, buffer, stream);
          assert errors + [] == errors;
          return;
      }
    }
  }

  lemma {:induction false} AheadOfChunks(chunks: seq<bytes>)
    ensures Ahead(Chunked(chunks)) == Data(Chunked(chunks)) == Joined(chunks)
    ensures Beyond(Chunked(chunks)) == [] && Errors(Chunked(chunks)) == []
  {
    if |chunks| > 0 {
      AheadOfChunks(chunks[1..]);
      assert Chunked(chunks)[1..] == Chunked(chunks[1..]);
    }
  }

  function Chunked(chunks: seq<bytes>): seq<Item> {
    if |chunks| == 0 then [] else [Chunk(chunks[0])] + Chunked(chunks[1..])
  }

  function Joined(chunks: seq<bytes>): bytes {
    if |chunks| == 0 then [] else chunks[0] + Joined(chunks[1..])
  }

  /** Frames written one after the other come back in order and complete from
      every way of cutting the bytes into chunks, empty chunks included. */
  method RoundTrip(fs: seq<Frame>, chunks: seq<bytes>) returns (frames: seq<Frame>, last: Outcome)
    requires AllValid(fs) && Joined(chunks) == EncodeAll(fs)
    ensures frames == fs && last == End
  {
    AheadOfChunks(chunks);
    SplitUnique(fs, []);
    assert EncodeAll(fs) + [] == EncodeAll(fs);
    frames, last := ReadAll(Chunked(chunks));
  }
}
