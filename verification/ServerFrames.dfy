/** The server's copy of the frame reader, which refuses frames of more than 16 MB, and
    the request stream read with it. */
module ServerFrames {
  import opened Bytes
  import opened Frames
  import opened Outcomes
  import opened StreamChannel
  import GuardedStream
  import Session

  const MAX_FRAME_SIZE: nat := 16 * 1024 * 1024

  /** What the front of a buffer shows. */
  datatype Front =
    | Ready(frame: Frame, rest: bytes)
    | Oversize(len: nat)
    | Short

  function Look(b: bytes): Front {
    if |b| >= 4 && FromBigEndian(b[..4]) > MAX_FRAME_SIZE then Oversize(FromBigEndian(b[..4]))
    else
      match TakeFrame(b)
      case None => Short
      case Some((f, rest)) => Ready(f, rest)
  }

  /** More bytes change neither a frame nor a refusal. */
  lemma LookStable(b: bytes, more: bytes)
    ensures Look(b).Ready? ==> Look(b + more) == Ready(Look(b).frame, Look(b).rest + more)
    ensures Look(b).Oversize? ==> Look(b + more) == Look(b)
  {
    if |b| >= 4 {
      assert (b + more)[..4] == b[..4];
      if TakeFrame(b).Some? {
        TakeFrameStable(b, more);
      }
    }
  }

  // ---- the whole stream ----

  datatype Stop = Left(rest: bytes) | TooLarge(len: nat)

  /** One-shot parse: the frames up to the first one that is too large. */
  function SplitLimited(b: bytes): (r: (seq<Frame>, Stop))
    decreases |b|
  {
    match Look(b)
    case Ready(f, rest) =>
      var (fs, stop) := SplitLimited(rest);
      ([f] + fs, stop)
    case Oversize(len) => ([], TooLarge(len))
    case Short => ([], Left(b))
  }

  ghost predicate AllFit(fs: seq<Frame>) {
    forall i :: 0 <= i < |fs| ==> |fs[i].ciphertext| <= MAX_FRAME_SIZE
  }

  /** These are the frames of the unlimited parse up to the first one that does not fit;
      without such a one, and unless one is announced behind them, all of them. */
  lemma {:induction false} LimitedIsPrefix(b: bytes)
    ensures var (fs, stop) := SplitLimited(b);
            && fs <= Split(b).0 && AllFit(fs)
            && (stop.Left? ==> (fs, stop.rest) == Split(b))
            && (stop.TooLarge? && |fs| < |Split(b).0| ==> |Split(b).0[|fs|].ciphertext| == stop.len > MAX_FRAME_SIZE)
    decreases |b|
  {
    if Look(b).Ready? {
      var Ready(f, rest) := Look(b);
      assert TakeFrame(b) == Some((f, rest));
      LimitedIsPrefix(rest);
      assert |f.ciphertext| == FromBigEndian(b[..4]);
    }
  }

  /** Frames that fit are all read. */
  lemma {:induction false} FittingAreRead(fs: seq<Frame>)
    requires AllValid(fs) && AllFit(fs)
    ensures SplitLimited(EncodeAll(fs)) == (fs, Left([]))
  {
    if |fs| > 0 {
      var rest := EncodeAll(fs[1..]);
      FittingAreRead(fs[1..]);
      TakeFrameComplete(fs[0], rest);
      FitsAtFront(fs[0], rest);
      assert [fs[0]] + fs[1..] == fs;
    }
  }

  lemma FitsAtFront(f: Frame, rest: bytes)
    requires ValidFrame(f) && |f.ciphertext| <= MAX_FRAME_SIZE
    ensures Look(Encode(f) + rest) == Ready(f, rest)
  {
    TakeFrameComplete(f, rest);
    WidthSizes();
    DecodeEncode(|f.ciphertext|, 4);
    assert (Encode(f) + rest)[..4] == BigEndian(|f.ciphertext|, 4);
  }

  // ---- the reader ----

  /** An answer that the client's reader could give, or a refusal. */
  datatype Answer = Plain(outcome: Outcome) | Exceeds(len: nat)

  class ServerFrameReader {
    var stream: seq<Item>
    var buffer: bytes

    constructor (source: seq<Item>)
      ensures stream == source && buffer == []
    {
      stream := source;
      buffer := [];
    }

    function Pending(): bytes
      reads this
    {
      buffer + Ahead(stream)
    }

    /** As the client's reader, except that a frame that is announced as too large is
        reported and left where it is. */
    method NextFrame() returns (r: Answer)
      modifies this
      ensures match old(Look(Pending()))
              case Ready(f, rest) =>
                r == Plain(Got(f)) && Pending() == rest && Beyond(stream) == old(Beyond(stream))
              case Oversize(len) =>
                r == Exceeds(len) && Pending() == old(Pending()) && Beyond(stream) == old(Beyond(stream))
              case Short =>
                && buffer == old(Pending())
                && (if old(Beyond(stream)) == [] then
                      r == Plain(if buffer == [] then End else Incomplete) && stream == []
                    else
                      r == Plain(Transport(old(Beyond(stream))[0].error)) && stream == old(Beyond(stream))[1..])
    {
      while true
        invariant Pending() == old(Pending()) && Beyond(stream) == old(Beyond(stream))
        decreases |stream|
      {
        LookStable(buffer, Ahead(stream));
        if |buffer| >= 4 {
          var len := FromBigEndian(buffer[..4]);
          if len > MAX_FRAME_SIZE {
            return Exceeds(len);
          }
          if |buffer| >= 4 + 8 + len {
            var rest := buffer[4..];
            var counter := FromBigEndian(rest[..8]);
            rest := rest[8..];
            var ciphertext := rest[..len];
            assert buffer[4..][..8] == buffer[4..12] && ciphertext == buffer[12..12 + len];
            assert rest[len..] == buffer[12 + len..];
            buffer := rest[len..];
            return Plain(Got(Frame(counter, ciphertext)));
          }
        }
        assert Look(buffer).Short? && buffer + [] == buffer;
        if |stream| == 0 {
          return Plain(if buffer == [] then End else Incomplete);
        }
        var item := stream[0];
        stream := stream[1..];
        match item {
          case Chunk(data) =>
            ConcatAssoc(buffer, data, Ahead(stream));
            buffer := buffer + data;
          case Broken(e) =>
            return Plain(Transport(e));
        }
      }
    }
  }

  /** A refused frame is refused at every further poll. */
  method PollRefused(reader: ServerFrameReader, polls: nat) returns (answers: seq<Answer>)
    requires Look(reader.Pending()).Oversize?
    modifies reader
    ensures |answers| == polls && reader.Pending() == old(reader.Pending())
    ensures forall i :: 0 <= i < polls ==> answers[i] == Exceeds(old(Look(reader.Pending())).len)
  {
    answers := [];
    for k := 0 to polls
      invariant |answers| == k && reader.Pending() == old(reader.Pending())
      invariant forall i :: 0 <= i < k ==> answers[i] == Exceeds(old(Look(reader.Pending())).len)
    {
      var answer := reader.NextFrame();
      answers := answers + [answer];
    }
  }

  // ---- reading all of it, past transport errors ----

  ghost predicate Reading(whole: (seq<Frame>, Stop), frames: seq<Frame>, buffer: bytes, stream: seq<Item>) {
    var (fs, stop) := SplitLimited(buffer + Data(stream));
    whole == (frames + fs, stop)
  }

  lemma ReadingGot(whole: (seq<Frame>, Stop), frames: seq<Frame>, buffer: bytes, stream: seq<Item>,
                   f: Frame, buffer': bytes, stream': seq<Item>)
    requires Reading(whole, frames, buffer, stream) && Beyond(stream') == Beyond(stream)
    requires Look(buffer + Ahead(stream)) == Ready(f, buffer' + Ahead(stream'))
    ensures Reading(whole, frames + [f], buffer', stream')
  {
    var beyond := Data(Beyond(stream));
    DataSplits(stream);
    DataSplits(stream');
    ConcatAssoc(buffer, Ahead(stream), beyond);
    ConcatAssoc(buffer', Ahead(stream'), beyond);
    LookStable(buffer + Ahead(stream), beyond);
    var fs := SplitLimited(buffer' + Data(stream')).0;
    assert frames + ([f] + fs) == frames + [f] + fs;
  }

  lemma ReadingRefused(whole: (seq<Frame>, Stop), frames: seq<Frame>, buffer: bytes, stream: seq<Item>)
    requires Reading(whole, frames, buffer, stream) && Look(buffer + Ahead(stream)).Oversize?
    ensures whole == (frames, TooLarge(Look(buffer + Ahead(stream)).len))
  {
    DataSplits(stream);
    ConcatAssoc(buffer, Ahead(stream), Data(Beyond(stream)));
    LookStable(buffer + Ahead(stream), Data(Beyond(stream)));
    assert frames + [] == frames;
  }

  lemma ReadingBroken(whole: (seq<Frame>, Stop), frames: seq<Frame>, buffer: bytes, stream: seq<Item>)
    requires Reading(whole, frames, buffer, stream) && Beyond(stream) != []
    ensures Reading(whole, frames, buffer + Ahead(stream), Beyond(stream)[1..])
  {
    DataSplits(stream);
    ConcatAssoc(buffer, Ahead(stream), Data(Beyond(stream)));
  }

  lemma ReadingDone(whole: (seq<Frame>, Stop), frames: seq<Frame>, buffer: bytes, stream: seq<Item>)
    requires Reading(whole, frames, buffer, stream) && Beyond(stream) == [] && Look(buffer + Ahead(stream)).Short?
    ensures whole == (frames, Left(buffer + Ahead(stream)))
  {
    DataSplits(stream);
    assert Ahead(stream) + [] == Ahead(stream) && frames + [] == frames;
  }

  /** Polls until the transport is used up or a frame is refused. The frames are those of
      the one-shot parse, whatever the chunking and whatever errors come in between. */
  method ReadOn(source: seq<Item>) returns (frames: seq<Frame>, last: Answer)
    ensures frames == SplitLimited(Data(source)).0
    ensures last == match SplitLimited(Data(source)).1
                    case Left(rest) => Plain(if rest == [] then End else Incomplete)
                    case TooLarge(len) => Exceeds(len)
  {
    var reader := new ServerFrameReader(source);
    frames := [];
    ghost var whole := SplitLimited(Data(source));
    assert [] + Data(source) == Data(source) && [] + whole.0 == whole.0;
    while true
      invariant fresh(reader) && Reading(whole, frames, reader.buffer, reader.stream)
      decreases |Beyond(reader.stream)|, |reader.Pending()|
    {
      ghost var buffer, stream := reader.buffer, reader.stream;
      last := reader.NextFrame();
      match last {
        case Plain(Got(frame)) =>
          ReadingGot(whole, frames, buffer, stream, frame, reader.buffer, reader.stream);
          frames := frames + [frame];
        case Plain(Transport(_)) =>
          ReadingBroken(whole, frames, buffer, stream);
        case Exceeds(_) =>
          ReadingRefused(whole, frames, buffer, stream);
          return;
        case _ =>
          ReadingDone(whole, frames, buffer, stream);
          return;
      }
    }
  }

  /** The request body, from its bytes to the chunks that the handler gets. */
  method ReadBody(session: Session.AttestSession, ch: Channel, source: seq<Item>)
    returns (delivered: seq<bytes>, last: Answer)
    requires session.Valid() && session.clientCounter + |SplitLimited(Data(source)).0| <= U64_MAX
    modifies session, session.guard, session.guard.window
    ensures session.Valid()
    ensures var gate := old(GuardedStream.Gate(session.committed, session.strictLastSeen));
            var frames := SplitLimited(Data(source)).0;
            delivered == GuardedStream.ReadFrames(session.strategy, ch, gate, frames).receiver.delivered
  {
    var frames;
    frames, last := ReadOn(source);
    delivered := GuardedStream.ReadStream(session, ch, frames);
  }
}
