/** A request stream as the server reads it: every frame passes the session's replay
    check before it is opened, and only a frame that opens commits its counter. */
module GuardedStream {
  import AeadNonce
  import opened Bytes
  import opened Frames
  import opened IdealChannel
  import opened ReplayGuard
  import opened Session
  import opened StreamChannel

  /** The replay state of the session. */
  datatype Gate = Gate(committed: seq<nat>, lastSeen: nat)

  datatype Reader = Reader(receiver: Receiver, gate: Gate)

  function Commit(strategy: ReplayStrategy, gate: Gate, nonce: nat): Gate {
    Gate(gate.committed + [nonce], if strategy.StrictMonotonic? then nonce else gate.lastSeen)
  }

  /** What a frame with the given counter leads to when opening it gives `r`. */
  ghost function Pass(strategy: ReplayStrategy, s: Reader, counter: nat, r: Receiver): Reader {
    if !Passes(strategy, s.gate.committed, s.gate.lastSeen, counter) then s
    else if |r.delivered| > |s.receiver.delivered| then Reader(r, Commit(strategy, s.gate, counter))
    else Reader(r, Gate(s.gate.committed, AfterFailure(strategy, s.gate.lastSeen, counter)))
  }

  /** One frame, read through the gate. */
  ghost function Read(strategy: ReplayStrategy, ch: Channel, s: Reader, f: Frame): Reader {
    Pass(strategy, s, f.counter, Receive(ch, s.receiver, f))
  }

  ghost function ReadFrames(strategy: ReplayStrategy, ch: Channel, gate: Gate, fs: seq<Frame>): Reader {
    if |fs| == 0 then Reader(Start(), gate)
    else Read(strategy, ch, ReadFrames(strategy, ch, gate, fs[..|fs| - 1]), fs[|fs| - 1])
  }

  /** The stream's counters increase and are above everything committed before, as
      the counters of one session are. */
  ghost predicate Fresh(counters: seq<nat>, gate: Gate) {
    && Increasing(counters)
    && forall i :: 0 <= i < |counters| ==> counters[i] > Highest(gate.committed) && counters[i] > gate.lastSeen
  }

  /** Is f the frame that the receiver waits for? */
  ghost predicate IsNext(sent: seq<Frame>, k: nat, f: Frame) {
    k < |sent| && f == sent[k]
  }

  /** Opening f gives `r`: the next chunk if f is the next frame, and nothing otherwise. */
  ghost predicate Opened(counters: seq<nat>, next: bool, before: Receiver, counter: nat, r: Receiver) {
    var k := |before.delivered|;
    if next then k < |counters| && counter == counters[k] && |r.delivered| == k + 1 else r == before
  }

  lemma OpenedIfNext(ch: Channel, counters: seq<nat>, ps: seq<bytes>, r: Receiver, f: Frame)
    requires |counters| == |ps| && Ideal(ch, counters, ps) && InStep(ch, counters, ps, r) && ValidFrame(f)
    ensures Opened(counters, IsNext(Sent(ch, counters, ps), |r.delivered|, f), r, f.counter, Receive(ch, r, f))
  {
    OpensIffNext(ch, counters, ps, r, f);
  }

  // ---- the sliding window ----

  lemma {:induction false} HighestBelow(history: seq<nat>, bound: nat)
    requires bound > 0 && forall i :: 0 <= i < |history| ==> history[i] < bound
    ensures Highest(history) < bound
  {
  }

  /** The next counter of the stream is above all that is committed. */
  lemma NextIsFresh(counters: seq<nat>, gate: Gate, k: nat)
    requires Fresh(counters, gate) && k < |counters|
    ensures Passes(SlidingWindow, gate.committed + counters[..k], gate.lastSeen, counters[k])
  {
    var committed := gate.committed + counters[..k];
    forall i | 0 <= i < |committed|
      ensures committed[i] < counters[k]
    {
      if i >= |gate.committed| {
        assert committed[i] == counters[i - |gate.committed|];
      }
    }
    HighestBelow(committed, counters[k]);
  }

  ghost predicate SlidingStep(counters: seq<nat>, gate: Gate, s: Reader, r: Receiver) {
    && s.receiver == r
    && |r.delivered| <= |counters|
    && s.gate == Gate(gate.committed + counters[..|r.delivered|], gate.lastSeen)
  }

  lemma SlidingKeepsStep(counters: seq<nat>, gate: Gate, s: Reader, next: bool, counter: nat, r: Receiver)
    requires Fresh(counters, gate) && SlidingStep(counters, gate, s, s.receiver)
    requires Opened(counters, next, s.receiver, counter, r)
    ensures SlidingStep(counters, gate, Pass(SlidingWindow, s, counter, r), r)
  {
    var k := |s.receiver.delivered|;
    if next {
      NextIsFresh(counters, gate, k);
      assert gate.committed + counters[..k] + [counters[k]] == gate.committed + counters[..k + 1];
    }
  }

  lemma {:induction false} SlidingInvariant(ch: Channel, counters: seq<nat>, ps: seq<bytes>, gate: Gate, fs: seq<Frame>)
    requires |counters| == |ps| && Ideal(ch, counters, ps) && Fresh(counters, gate) && AllValid(fs)
    ensures SlidingStep(counters, gate, ReadFrames(SlidingWindow, ch, gate, fs), ReceiveAll(ch, fs))
  {
    if |fs| > 0 {
      var front, f := fs[..|fs| - 1], fs[|fs| - 1];
      SlidingInvariant(ch, counters, ps, gate, front);
      ReceiverMatches(ch, counters, ps, front);
      assert ValidFrame(f);
      var s := ReadFrames(SlidingWindow, ch, gate, front);
      OpenedIfNext(ch, counters, ps, s.receiver, f);
      SlidingKeepsStep(counters, gate, s, IsNext(Sent(ch, counters, ps), |s.receiver.delivered|, f), f.counter,
                       Receive(ch, s.receiver, f));
    } else {
      assert gate.committed + counters[..0] == gate.committed;
    }
  }

  /** Under the sliding window the replay check takes nothing away: whatever arrives,
      the server delivers what the stream alone would, and commits exactly the
      counters of the delivered chunks. */
  lemma SlidingTransparent(ch: Channel, counters: seq<nat>, ps: seq<bytes>, gate: Gate, fs: seq<Frame>)
    requires |counters| == |ps| && Ideal(ch, counters, ps) && Fresh(counters, gate) && AllValid(fs)
    ensures var k := Matched(Sent(ch, counters, ps), fs);
            var s := ReadFrames(SlidingWindow, ch, gate, fs);
            s.receiver.delivered == ps[..k] && s.gate.committed == gate.committed + counters[..k]
  {
    SlidingInvariant(ch, counters, ps, gate, fs);
    StreamIntegrity(ch, counters, ps, fs);
  }

  // ---- strict order ----

  ghost predicate Below(fs: seq<Frame>, counter: nat) {
    forall i :: 0 <= i < |fs| ==> fs[i].counter <= counter
  }

  /** No frame of the stream is overtaken: when one arrives as the next to be
      delivered, nothing that came before it carried a larger counter. */
  ghost predicate NotOvertaken(sent: seq<Frame>, fs: seq<Frame>) {
    |fs| == 0 ||
    var front, f := fs[..|fs| - 1], fs[|fs| - 1];
    NotOvertaken(sent, front) && (IsNext(sent, Matched(sent, front), f) ==> Below(front, f.counter))
  }

  /** While nothing is overtaken: the reader is where the stream alone would be, and
      `lastSeen` is below a later counter exactly if all frames so far are not above it. */
  ghost predicate StrictStep(counters: seq<nat>, fs: seq<Frame>, s: Reader, r: Receiver) {
    && s.receiver == r
    && |r.delivered| <= |counters|
    && forall i :: |r.delivered| <= i < |counters| ==> (s.gate.lastSeen < counters[i] <==> Below(fs, counters[i]))
  }

  /** Afterwards: the next chunk can no longer pass. */
  ghost predicate Stuck(counters: seq<nat>, s: Reader, bound: nat) {
    && |s.receiver.delivered| < bound <= |counters|
    && counters[|s.receiver.delivered|] <= s.gate.lastSeen
  }

  lemma BelowAppend(front: seq<Frame>, f: Frame, counter: nat)
    ensures Below(front + [f], counter) <==> Below(front, counter) && f.counter <= counter
  {
    var fs := front + [f];
    assert fs[|front|] == f;
    assert forall i :: 0 <= i < |front| ==> fs[i] == front[i];
  }

  /** A frame that is not the next one, or that is the next one and not overtaken. */
  lemma StrictKeepsStep(counters: seq<nat>, front: seq<Frame>, s: Reader, next: bool, f: Frame, r: Receiver)
    requires Increasing(counters) && StrictStep(counters, front, s, s.receiver)
    requires Opened(counters, next, s.receiver, f.counter, r)
    requires next ==> Below(front, f.counter)
    ensures StrictStep(counters, front + [f], Pass(StrictMonotonic, s, f.counter, r), r)
  {
    forall i | |r.delivered| <= i < |counters|
      ensures Pass(StrictMonotonic, s, f.counter, r).gate.lastSeen < counters[i] <==> Below(front + [f], counters[i])
    {
      BelowAppend(front, f, counters[i]);
    }
  }

  /** The next frame, overtaken, is refused. */
  lemma OvertakenSticks(counters: seq<nat>, front: seq<Frame>, s: Reader, f: Frame, r: Receiver)
    requires StrictStep(counters, front, s, s.receiver)
    requires Opened(counters, true, s.receiver, f.counter, r) && !Below(front, f.counter)
    ensures Stuck(counters, Pass(StrictMonotonic, s, f.counter, r), |r.delivered|)
  {
  }

  lemma StuckForever(counters: seq<nat>, s: Reader, next: bool, counter: nat, r: Receiver, low: nat, high: nat)
    requires Stuck(counters, s, low) && low <= high <= |counters|
    requires Opened(counters, next, s.receiver, counter, r)
    ensures var s' := Pass(StrictMonotonic, s, counter, r);
            s'.receiver == s.receiver && Stuck(counters, s', high)
  {
  }

  ghost predicate StrictInv(sent: seq<Frame>, counters: seq<nat>, fs: seq<Frame>, s: Reader, r: Receiver) {
    if NotOvertaken(sent, fs) then StrictStep(counters, fs, s, r) else Stuck(counters, s, |r.delivered|)
  }

  /** `r` and `r'` are the stream alone before and after frame f, and `got` is what
      opening f gives the guarded reader. */
  lemma StrictInvStep(sent: seq<Frame>, counters: seq<nat>, front: seq<Frame>, f: Frame,
                      s: Reader, r: Receiver, got: Receiver, r': Receiver)
    requires Increasing(counters) && |sent| == |counters|
    requires StrictInv(sent, counters, front, s, r) && |r.delivered| == Matched(sent, front)
    requires Opened(counters, IsNext(sent, |s.receiver.delivered|, f), s.receiver, f.counter, got)
    requires |r'.delivered| == Matched(sent, front + [f]) && (s.receiver == r ==> got == r')
    ensures StrictInv(sent, counters, front + [f], Pass(StrictMonotonic, s, f.counter, got), r')
  {
    var fs := front + [f];
    assert fs[..|fs| - 1] == front && fs[|fs| - 1] == f;
    var next := IsNext(sent, |s.receiver.delivered|, f);
    if !NotOvertaken(sent, front) {
      StuckForever(counters, s, next, f.counter, got, |r.delivered|, |r'.delivered|);
    } else if next && !Below(front, f.counter) {
      OvertakenSticks(counters, front, s, f, r');
    } else {
      StrictKeepsStep(counters, front, s, next, f, r');
    }
  }

  lemma {:induction false} ReadInStep(strategy: ReplayStrategy, ch: Channel, counters: seq<nat>, ps: seq<bytes>,
                                      gate: Gate, fs: seq<Frame>)
    requires |counters| == |ps| && Ideal(ch, counters, ps) && AllValid(fs)
    ensures InStep(ch, counters, ps, ReadFrames(strategy, ch, gate, fs).receiver)
  {
    if |fs| > 0 {
      var front, f := fs[..|fs| - 1], fs[|fs| - 1];
      ReadInStep(strategy, ch, counters, ps, gate, front);
      assert ValidFrame(f);
      var r := ReadFrames(strategy, ch, gate, front).receiver;
      OpensIffNext(ch, counters, ps, r, f);
      ReceiveStep(ch, counters, ps, r, f);
    }
  }

  /** What the ideal channel tells about reading one more frame. */
  lemma FrameFacts(ch: Channel, counters: seq<nat>, ps: seq<bytes>, gate: Gate, front: seq<Frame>, f: Frame)
    requires |counters| == |ps| && Ideal(ch, counters, ps) && AllValid(front) && ValidFrame(f)
    ensures var sent := Sent(ch, counters, ps);
            var s := ReadFrames(StrictMonotonic, ch, gate, front).receiver;
            && |ReceiveAll(ch, front).delivered| == Matched(sent, front)
            && Opened(counters, IsNext(sent, |s.delivered|, f), s, f.counter, Receive(ch, s, f))
  {
    ReceiverMatches(ch, counters, ps, front);
    ReadInStep(StrictMonotonic, ch, counters, ps, gate, front);
    OpenedIfNext(ch, counters, ps, ReadFrames(StrictMonotonic, ch, gate, front).receiver, f);
  }

  lemma MatchedLength(ch: Channel, counters: seq<nat>, ps: seq<bytes>, fs: seq<Frame>)
    requires |counters| == |ps| && Ideal(ch, counters, ps) && AllValid(fs)
    ensures |ReceiveAll(ch, fs).delivered| == Matched(Sent(ch, counters, ps), fs)
  {
    ReceiverMatches(ch, counters, ps, fs);
  }

  lemma StrictNext(ch: Channel, counters: seq<nat>, sent: seq<Frame>, gate: Gate, front: seq<Frame>, f: Frame)
    requires Increasing(counters) && |sent| == |counters|
    requires StrictInv(sent, counters, front, ReadFrames(StrictMonotonic, ch, gate, front), ReceiveAll(ch, front))
    requires var s := ReadFrames(StrictMonotonic, ch, gate, front).receiver;
             && |ReceiveAll(ch, front).delivered| == Matched(sent, front)
             && Opened(counters, IsNext(sent, |s.delivered|, f), s, f.counter, Receive(ch, s, f))
    requires |ReceiveAll(ch, front + [f]).delivered| == Matched(sent, front + [f])
    ensures StrictInv(sent, counters, front + [f], ReadFrames(StrictMonotonic, ch, gate, front + [f]),
                      ReceiveAll(ch, front + [f]))
  {
    var fs := front + [f];
    assert fs[..|fs| - 1] == front && fs[|fs| - 1] == f;
    var s := ReadFrames(StrictMonotonic, ch, gate, front);
    StrictInvStep(sent, counters, front, f, s, ReceiveAll(ch, front), Receive(ch, s.receiver, f), ReceiveAll(ch, fs));
  }

  lemma LastFrame(fs: seq<Frame>)
    requires AllValid(fs) && |fs| > 0
    ensures var front, f := fs[..|fs| - 1], fs[|fs| - 1];
            AllValid(front) && ValidFrame(f) && front + [f] == fs
  {
  }

  lemma {:induction false} StrictInvariant(ch: Channel, counters: seq<nat>, ps: seq<bytes>, gate: Gate, fs: seq<Frame>)
    requires |counters| == |ps| && Ideal(ch, counters, ps) && Fresh(counters, gate) && AllValid(fs)
    ensures StrictInv(Sent(ch, counters, ps), counters, fs, ReadFrames(StrictMonotonic, ch, gate, fs),
                      ReceiveAll(ch, fs))
  {
    if |fs| > 0 {
      var front, f := fs[..|fs| - 1], fs[|fs| - 1];
      LastFrame(fs);
      StrictInvariant(ch, counters, ps, gate, front);
      FrameFacts(ch, counters, ps, gate, front, f);
      MatchedLength(ch, counters, ps, fs);
      StrictNext(ch, counters, Sent(ch, counters, ps), gate, front, f);
    }
  }

  /** Under strict order the server delivers what the stream alone would exactly if
      no frame of the stream is overtaken: a frame with a larger counter that does
      not open still moves `strict_last_seen` up to just below it. */
  lemma StrictTransparentIff(ch: Channel, counters: seq<nat>, ps: seq<bytes>, gate: Gate, fs: seq<Frame>)
    requires |counters| == |ps| && Ideal(ch, counters, ps) && Fresh(counters, gate) && AllValid(fs)
    ensures ReadFrames(StrictMonotonic, ch, gate, fs).receiver.delivered == ReceiveAll(ch, fs).delivered
            <==> NotOvertaken(Sent(ch, counters, ps), fs)
  {
    StrictInvariant(ch, counters, ps, gate, fs);
  }

  /** It happens: a frame numbered 2 that does not open makes the genuine frame 1
      after it undeliverable. */
  lemma OvertakenExample(iv: AeadNonce.Iv, aad: bytes, p: bytes) returns (ch: Channel)
    requires |p| < U32_SIZE
    ensures Ideal(ch, [1], [p]) && Sent(ch, [1], [p]) == [Frame(1, p)]
    ensures var fs := [Frame(2, []), Frame(1, p)];
            && ReceiveAll(ch, fs).delivered == [p]
            && ReadFrames(StrictMonotonic, ch, Gate([], 0), fs).receiver.delivered == []
  {
    ch := IdealChannelExists(iv, aad, Use([1], [p], {}));
    assert FramesOf([1], [p]) == [Frame(1, p)];
    var sent, junk := [Frame(1, p)], [Frame(2, [])];
    var fs := [Frame(2, []), Frame(1, p)];
    assert junk[..|junk| - 1] == [] && fs[..|fs| - 1] == junk && fs[|fs| - 1] == sent[0];
    assert Matched(sent, junk) == 0;
    assert !Below(junk, 1) && !NotOvertaken(sent, fs);
    StreamIntegrity(ch, [1], [p], fs);
    StrictInvariant(ch, [1], [p], Gate([], 0), fs);
  }

  // ---- the server's loop ----

  /** One turn of it, over a live session; `s` is where the reader stands. */
  method ReadFrame(session: AttestSession, ch: Channel, ghost s: Reader, frame: Frame, prevHash: bytes)
    returns (chunks: seq<bytes>, nextHash: bytes)
    requires session.Valid() && session.clientCounter < U64_MAX
    requires s.gate == Gate(session.committed, session.strictLastSeen) && prevHash == s.receiver.hash
    modifies session, session.guard, session.guard.window
    ensures session.Valid() && session.guard.window == old(session.guard.window)
    ensures session.clientCounter <= old(session.clientCounter) + 1
    ensures var s' := Read(session.strategy, ch, s, frame);
            && s'.gate == Gate(session.committed, session.strictLastSeen)
            && s'.receiver.delivered == s.receiver.delivered + chunks
            && s'.receiver.hash == nextHash
  {
    var aeadNonce := AeadNonce.BuildAeadNonce(frame.counter, ch.iv);
    var plain := ch.open(aeadNonce, ch.aad + prevHash, frame.ciphertext);
    var outcome := session.WithKeysForTrr(true, true, frame.counter, plain.Some?);
    if outcome.Ran? && outcome.ok {
      chunks, nextHash := [plain.value], ch.hash(prevHash + frame.ciphertext);
    } else {
      chunks, nextHash := [], prevHash;
    }
  }

  /** The request stream of the server. */
  method ReadStream(session: AttestSession, ch: Channel, frames: seq<Frame>) returns (delivered: seq<bytes>)
    requires session.Valid() && session.clientCounter + |frames| <= U64_MAX
    modifies session, session.guard, session.guard.window
    ensures session.Valid()
    ensures var s := ReadFrames(session.strategy, ch, old(Gate(session.committed, session.strictLastSeen)), frames);
            delivered == s.receiver.delivered && Gate(session.committed, session.strictLastSeen) == s.gate
  {
    ghost var gate := Gate(session.committed, session.strictLastSeen);
    ghost var s := Reader(Start(), gate);
    delivered := [];
    var prevHash := ZeroHash();
    for k := 0 to |frames|
      invariant session.Valid() && session.guard.window == old(session.guard.window)
      invariant session.clientCounter + |frames| - k <= U64_MAX
      invariant s == ReadFrames(session.strategy, ch, gate, frames[..k])
      invariant delivered == s.receiver.delivered && prevHash == s.receiver.hash
      invariant s.gate == Gate(session.committed, session.strictLastSeen)
    {
      assert frames[..k + 1][..k] == frames[..k];
      var chunks;
      chunks, prevHash := ReadFrame(session, ch, s, frames[k], prevHash);
      delivered := delivered + chunks;
      s := Read(session.strategy, ch, s, frames[k]);
    }
    assert frames[..|frames|] == frames;
  }
}
