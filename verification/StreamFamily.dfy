/** Several streams under one key: a session answers every streaming request under the
    same write key, and the client does not look at the order of the counters. */
module StreamFamily {
  import opened AeadNonce
  import opened Bytes
  import opened Frames
  import opened Outcomes
  import opened StreamChannel

  datatype Stream = Stream(counters: seq<nat>, ps: seq<bytes>) {
    ghost predicate Valid() {
      |counters| == |ps| && forall i :: 0 <= i < |counters| ==> counters[i] < U64_SIZE
    }
  }

  ghost predicate AllStreams(streams: seq<Stream>) {
    forall s :: 0 <= s < |streams| ==> streams[s].Valid()
  }

  function Cts(ch: Channel, st: Stream): (cts: seq<bytes>)
    requires |st.counters| == |st.ps|
    ensures |cts| == |st.ps|
  {
    SealAll(ch, st.counters, st.ps)
  }

  function Frs(ch: Channel, st: Stream): (fs: seq<Frame>)
    requires |st.counters| == |st.ps|
    ensures |fs| == |st.ps|
  {
    Sent(ch, st.counters, st.ps)
  }

  // ---- assumptions, for all streams of the key together ----

  ghost predicate NoZero(ch: Channel, streams: seq<Stream>)
    requires AllStreams(streams)
  {
    forall s, i :: 0 <= s < |streams| && 0 <= i < |streams[s].ps| ==>
      ch.hash(HashInput(ch, Cts(ch, streams[s]), i)) != ZeroHash()
  }

  ghost predicate NoCollision(ch: Channel, xs: seq<bytes>, ys: seq<bytes>) {
    forall i, j :: 0 <= i < |xs| && 0 <= j < |ys| && ch.hash(HashInput(ch, xs, i)) == ch.hash(HashInput(ch, ys, j)) ==>
      HashInput(ch, xs, i) == HashInput(ch, ys, j)
  }

  /** No two streams begin with the same ciphertext. */
  ghost predicate Apart(ch: Channel, streams: seq<Stream>)
    requires AllStreams(streams)
  {
    forall s, t :: 0 <= s < t < |streams| && |streams[s].ps| > 0 && |streams[t].ps| > 0 ==>
      Cts(ch, streams[s])[0] != Cts(ch, streams[t])[0]
  }

  ghost predicate SealedIn(ch: Channel, st: Stream, i: nat, n: bytes, a: bytes, c: bytes)
    requires |st.counters| == |st.ps|
  {
    i < |st.ps| && IsSealed(ch, st.counters, st.ps, i, n, a, c)
  }

  ghost predicate FamilyAuthentic(ch: Channel, streams: seq<Stream>)
    requires AllStreams(streams)
  {
    forall n, a, c :: |a| == |ch.aad| + 48 && ch.open(n, a, c).Some? ==>
      exists s, i :: 0 <= s < |streams| && SealedIn(ch, streams[s], i, n, a, c)
  }

  ghost predicate NoCollisions(ch: Channel, streams: seq<Stream>)
    requires AllStreams(streams)
  {
    forall s, t :: 0 <= s < |streams| && 0 <= t < |streams| ==>
      NoCollision(ch, Cts(ch, streams[s]), Cts(ch, streams[t]))
  }

  ghost predicate AllOpen(ch: Channel, streams: seq<Stream>)
    requires AllStreams(streams)
  {
    forall s :: 0 <= s < |streams| ==> OpensAll(ch, streams[s])
  }

  ghost predicate OpensAll(ch: Channel, st: Stream) {
    st.Valid() && Opens(ch, st.counters, st.ps)
  }

  ghost predicate FamilyIdeal(ch: Channel, streams: seq<Stream>)
  {
    && AllStreams(streams)
    && (forall x :: |ch.hash(x)| == 48)
    && NoZero(ch, streams)
    && NoCollisions(ch, streams)
    && Apart(ch, streams)
    && FamilyAuthentic(ch, streams)
    && AllOpen(ch, streams)
  }

  // ---- the running hash tells stream and step ----

  lemma ChainNotZero(ch: Channel, streams: seq<Stream>, s: nat, i: nat)
    requires AllStreams(streams) && NoZero(ch, streams) && s < |streams| && 0 < i <= |streams[s].ps|
    ensures Chain(ch, Cts(ch, streams[s])[..i]) != ZeroHash()
  {
    ChainStep(ch, Cts(ch, streams[s]), i - 1);
  }

  lemma SameStream(ch: Channel, streams: seq<Stream>, s: nat, t: nat)
    requires AllStreams(streams) && Apart(ch, streams) && s < |streams| && t < |streams|
    requires |streams[s].ps| > 0 && |streams[t].ps| > 0 && Cts(ch, streams[s])[0] == Cts(ch, streams[t])[0]
    ensures s == t
  {
  }

  /** Equal running hashes have equal last inputs. */
  lemma ChainBack(ch: Channel, xs: seq<bytes>, ys: seq<bytes>, i: nat, j: nat)
    requires (forall x :: |ch.hash(x)| == 48) && NoCollision(ch, xs, ys) && i < |xs| && j < |ys|
    requires Chain(ch, xs[..i + 1]) == Chain(ch, ys[..j + 1])
    ensures Chain(ch, xs[..i]) == Chain(ch, ys[..j]) && xs[i] == ys[j]
  {
    ChainStep(ch, xs, i);
    ChainStep(ch, ys, j);
    ChainLength(ch, xs[..i]);
    ChainLength(ch, ys[..j]);
    assert HashInput(ch, xs, i) == HashInput(ch, ys, j);
    SplitAt(Chain(ch, xs[..i]), xs[i], Chain(ch, ys[..j]), ys[j]);
  }

  /** One step back. */
  lemma ChainsBack(ch: Channel, streams: seq<Stream>, s: nat, i: nat, t: nat, j: nat)
    requires AllStreams(streams) && (forall x :: |ch.hash(x)| == 48) && NoCollisions(ch, streams)
    requires s < |streams| && t < |streams| && 0 < i <= |streams[s].ps| && 0 < j <= |streams[t].ps|
    requires Chain(ch, Cts(ch, streams[s])[..i]) == Chain(ch, Cts(ch, streams[t])[..j])
    ensures Chain(ch, Cts(ch, streams[s])[..i - 1]) == Chain(ch, Cts(ch, streams[t])[..j - 1])
    ensures Cts(ch, streams[s])[i - 1] == Cts(ch, streams[t])[j - 1]
  {
    ChainBack(ch, Cts(ch, streams[s]), Cts(ch, streams[t]), i - 1, j - 1);
  }

  lemma {:induction false} ChainTells(ch: Channel, streams: seq<Stream>, s: nat, i: nat, t: nat, j: nat)
    requires AllStreams(streams) && (forall x :: |ch.hash(x)| == 48)
    requires NoZero(ch, streams) && NoCollisions(ch, streams) && Apart(ch, streams)
    requires s < |streams| && t < |streams| && i <= |streams[s].ps| && j <= |streams[t].ps|
    requires Chain(ch, Cts(ch, streams[s])[..i]) == Chain(ch, Cts(ch, streams[t])[..j])
    ensures i == j && (i > 0 ==> s == t)
  {
    if i == 0 || j == 0 {
      if i > 0 {
        ChainNotZero(ch, streams, s, i);
      } else if j > 0 {
        ChainNotZero(ch, streams, t, j);
      }
    } else {
      ChainsBack(ch, streams, s, i, t, j);
      ChainTells(ch, streams, s, i - 1, t, j - 1);
      if i == 1 {
        SameStream(ch, streams, s, t);
      }
    }
  }

  ghost predicate SameChain(ch: Channel, streams: seq<Stream>, s: nat, i: nat, t: nat, j: nat)
    requires AllStreams(streams)
  {
    && s < |streams| && t < |streams| && i <= |streams[s].ps| && j <= |streams[t].ps|
    && Chain(ch, Cts(ch, streams[s])[..i]) == Chain(ch, Cts(ch, streams[t])[..j])
  }

  /** What the rest needs. */
  ghost predicate Core(ch: Channel, streams: seq<Stream>) {
    && AllStreams(streams)
    && (forall x :: |ch.hash(x)| == 48)
    && (forall s, i, t, j :: SameChain(ch, streams, s, i, t, j) ==> i == j && (i > 0 ==> s == t))
    && FamilyAuthentic(ch, streams)
    && AllOpen(ch, streams)
  }

  lemma IdealCore(ch: Channel, streams: seq<Stream>)
    requires FamilyIdeal(ch, streams)
    ensures Core(ch, streams)
  {
    forall s, i, t, j | SameChain(ch, streams, s, i, t, j)
      ensures i == j && (i > 0 ==> s == t)
    {
      ChainTells(ch, streams, s, i, t, j);
    }
  }

  // ---- what the receiver accepts ----

  /** The receiver stands after the first k chunks of stream s. */
  ghost predicate InStream(ch: Channel, st: Stream, r: Receiver)
    requires |st.counters| == |st.ps|
  {
    InStep(ch, st.counters, st.ps, r)
  }

  lemma WhoSealedIt(ch: Channel, streams: seq<Stream>, n: bytes, a: bytes, c: bytes) returns (s: nat, i: nat)
    requires AllStreams(streams) && FamilyAuthentic(ch, streams) && |a| == |ch.aad| + 48 && ch.open(n, a, c).Some?
    ensures s < |streams| && SealedIn(ch, streams[s], i, n, a, c)
  {
    s, i :| 0 <= s < |streams| && SealedIn(ch, streams[s], i, n, a, c);
  }

  /** f is frame k of the stream. */
  ghost predicate NextOf(ch: Channel, st: Stream, k: nat, f: Frame) {
    st.Valid() && k < |st.ps| && f == Frs(ch, st)[k]
  }

  /** A frame that opens after k chunks of stream s is frame k of some stream t, and of
      s itself unless k is 0. */
  lemma OpenedIsNext(ch: Channel, streams: seq<Stream>, s: nat, k: nat, f: Frame) returns (t: nat)
    requires Core(ch, streams) && s < |streams| && k <= |streams[s].ps| && f.counter < U64_SIZE
    requires ch.open(Nonce(ch.iv, f.counter), ch.aad + Chain(ch, Cts(ch, streams[s])[..k]), f.ciphertext).Some?
    ensures t < |streams| && NextOf(ch, streams[t], k, f) && (k > 0 ==> NextOf(ch, streams[s], k, f))
  {
    var n, a := Nonce(ch.iv, f.counter), ch.aad + Chain(ch, Cts(ch, streams[s])[..k]);
    ChainLength(ch, Cts(ch, streams[s])[..k]);
    var i;
    t, i := WhoSealedIt(ch, streams, n, a, f.ciphertext);
    SplitAt(ch.aad, Chain(ch, Cts(ch, streams[s])[..k]), ch.aad, Chain(ch, Cts(ch, streams[t])[..i]));
    assert SameChain(ch, streams, s, k, t, i);
    NonceInjective(ch.iv, f.counter, streams[t].counters[i]);
  }

  lemma NextOpens(ch: Channel, st: Stream, k: nat)
    requires OpensAll(ch, st) && k < |st.ps|
    ensures var f := Frs(ch, st)[k];
            ch.open(Nonce(ch.iv, f.counter), ch.aad + Chain(ch, Cts(ch, st)[..k]), f.ciphertext) == Some(st.ps[k])
  {
  }

  /** f is the first frame of stream s. */
  ghost predicate Leads(ch: Channel, streams: seq<Stream>, s: nat, f: Frame)
    requires AllStreams(streams)
  {
    s < |streams| && |streams[s].ps| > 0 && f == Frs(ch, streams[s])[0]
  }

  ghost predicate NoneLeads(ch: Channel, streams: seq<Stream>, f: Frame)
    requires AllStreams(streams)
  {
    forall s :: 0 <= s < |streams| ==> !Leads(ch, streams, s, f)
  }

  /** Before any stream has begun, a frame opens exactly if it leads one. */
  lemma NotBegun(ch: Channel, streams: seq<Stream>, f: Frame)
    requires Core(ch, streams) && |streams| > 0 && f.counter < U64_SIZE && NoneLeads(ch, streams, f)
    ensures Receive(ch, Start(), f) == Start()
  {
    assert Cts(ch, streams[0])[..0] == [];
    if ch.open(Nonce(ch.iv, f.counter), ch.aad + ZeroHash(), f.ciphertext).Some? {
      var t := OpenedIsNext(ch, streams, 0, 0, f);
      assert Leads(ch, streams, t, f);
    }
  }

  lemma Begun(ch: Channel, streams: seq<Stream>, s: nat, f: Frame)
    requires Core(ch, streams) && Leads(ch, streams, s, f)
    ensures InStream(ch, streams[s], Receive(ch, Start(), f)) && |Receive(ch, Start(), f).delivered| == 1
  {
    Member(ch, streams, s);
    StepsOn(ch, streams[s], Start());
  }

  /** The next frame of the stream is taken. */
  lemma StepsOn(ch: Channel, st: Stream, r: Receiver)
    requires OpensAll(ch, st) && InStream(ch, st, r) && |r.delivered| < |st.ps|
    ensures var r' := Receive(ch, r, Frs(ch, st)[|r.delivered|]);
            InStream(ch, st, r') && |r'.delivered| == |r.delivered| + 1
  {
    NextOpens(ch, st, |r.delivered|);
    ReceiveStep(ch, st.counters, st.ps, r, Frs(ch, st)[|r.delivered|]);
  }

  lemma Member(ch: Channel, streams: seq<Stream>, s: nat)
    requires AllStreams(streams) && AllOpen(ch, streams) && s < |streams|
    ensures OpensAll(ch, streams[s])
  {
  }

  /** A frame that is not the next one of the stream does not open. */
  lemma OthersStayClosed(ch: Channel, streams: seq<Stream>, s: nat, k: nat, f: Frame)
    requires Core(ch, streams) && s < |streams| && 0 < k <= |streams[s].ps| && f.counter < U64_SIZE
    ensures ch.open(Nonce(ch.iv, f.counter), ch.aad + Chain(ch, Cts(ch, streams[s])[..k]), f.ciphertext).Some? ==>
              NextOf(ch, streams[s], k, f)
  {
    if ch.open(Nonce(ch.iv, f.counter), ch.aad + Chain(ch, Cts(ch, streams[s])[..k]), f.ciphertext).Some? {
      var t := OpenedIsNext(ch, streams, s, k, f);
    }
  }

  /** Once a stream has begun, only its next frame is taken. */
  lemma GoesOnIff(ch: Channel, streams: seq<Stream>, s: nat, st: Stream, r: Receiver, f: Frame)
    requires Core(ch, streams) && s < |streams| && st == streams[s] && f.counter < U64_SIZE
    requires InStream(ch, st, r) && |r.delivered| > 0
    ensures var k, r' := |r.delivered|, Receive(ch, r, f);
            InStream(ch, st, r') && |r'.delivered| == if NextOf(ch, st, k, f) then k + 1 else k
  {
    if NextOf(ch, st, |r.delivered|, f) {
      Member(ch, streams, s);
      StepsOn(ch, st, r);
    } else {
      OthersStayClosed(ch, streams, s, |r.delivered|, f);
    }
  }

  /** Whose first frame comes first: that of stream s, or nobody's. */
  ghost predicate Leader(ch: Channel, streams: seq<Stream>, fs: seq<Frame>, who: Option<nat>)
    requires AllStreams(streams)
  {
    if |fs| == 0 then who == None
    else
      var front, f := fs[..|fs| - 1], fs[|fs| - 1];
      match who
      case None => Leader(ch, streams, front, None) && NoneLeads(ch, streams, f)
      case Some(s) => Leader(ch, streams, front, who) || (Leader(ch, streams, front, None) && Leads(ch, streams, s, f))
  }

  /** The receiver has taken the matched part of the leading stream, and nothing else. */
  ghost predicate Follows(ch: Channel, streams: seq<Stream>, fs: seq<Frame>, who: Option<nat>, r: Receiver)
    requires AllStreams(streams)
  {
    match who
    case None => r == Start()
    case Some(s) =>
      && s < |streams| && InStream(ch, streams[s], r)
      && 0 < |r.delivered| == Matched(Frs(ch, streams[s]), fs)
  }

  /** Without its first frame nothing of a stream is matched. */
  lemma {:induction false} NothingMatched(ch: Channel, streams: seq<Stream>, fs: seq<Frame>, s: nat)
    requires AllStreams(streams) && s < |streams| && Leader(ch, streams, fs, None)
    ensures Matched(Frs(ch, streams[s]), fs) == 0
  {
    if |fs| > 0 {
      NothingMatched(ch, streams, fs[..|fs| - 1], s);
      assert !Leads(ch, streams, s, fs[|fs| - 1]);
    }
  }

  lemma Begins(ch: Channel, streams: seq<Stream>, fs: seq<Frame>) returns (who: Option<nat>)
    requires Core(ch, streams) && |streams| > 0 && |fs| > 0 && ValidFrame(fs[|fs| - 1])
    requires var front := fs[..|fs| - 1];
             Leader(ch, streams, front, None) && ReceiveAll(ch, front) == Start()
    ensures Leader(ch, streams, fs, who) && Follows(ch, streams, fs, who, ReceiveAll(ch, fs))
  {
    var front, f := fs[..|fs| - 1], fs[|fs| - 1];
    if s: nat :| Leads(ch, streams, s, f) {
      Begun(ch, streams, s, f);
      NothingMatched(ch, streams, front, s);
      who := Some(s);
    } else {
      NotBegun(ch, streams, f);
      who := None;
    }
  }

  lemma {:induction false} CoreIntegrity(ch: Channel, streams: seq<Stream>, fs: seq<Frame>) returns (who: Option<nat>)
    requires Core(ch, streams) && |streams| > 0 && AllValid(fs)
    ensures Leader(ch, streams, fs, who) && Follows(ch, streams, fs, who, ReceiveAll(ch, fs))
    decreases |fs|
  {
    if |fs| == 0 {
      who := None;
    } else {
      var front := fs[..|fs| - 1];
      who := CoreIntegrity(ch, streams, front);
      assert ValidFrame(fs[|fs| - 1]);
      if who.None? {
        who := Begins(ch, streams, fs);
      } else {
        GoesOnIff(ch, streams, who.value, streams[who.value], ReceiveAll(ch, front), fs[|fs| - 1]);
      }
    }
  }

  /** Whatever arrives, the receiver delivers chunks of one stream only, that whose first
      frame came first, and of it the longest prefix that arrived in order. */
  lemma FamilyIntegrity(ch: Channel, streams: seq<Stream>, fs: seq<Frame>) returns (who: Option<nat>)
    requires FamilyIdeal(ch, streams) && |streams| > 0 && AllValid(fs)
    ensures Leader(ch, streams, fs, who) && Follows(ch, streams, fs, who, ReceiveAll(ch, fs))
  {
    IdealCore(ch, streams);
    who := CoreIntegrity(ch, streams, fs);
  }

  /** The delivered chunks, put plainly. */
  lemma OneStreamDelivered(ch: Channel, streams: seq<Stream>, fs: seq<Frame>)
    requires FamilyIdeal(ch, streams) && |streams| > 0 && AllValid(fs)
    ensures exists s :: 0 <= s < |streams| && ReceiveAll(ch, fs).delivered <= streams[s].ps
  {
    var who := FamilyIntegrity(ch, streams, fs);
    if who.None? {
      assert ReceiveAll(ch, fs).delivered <= streams[0].ps;
    } else {
      assert ReceiveAll(ch, fs).delivered <= streams[who.value].ps;
    }
  }

  // ---- an old stream is as good as a new one ----

  lemma ReceiveSnoc(ch: Channel, fs: seq<Frame>, k: nat)
    requires k < |fs|
    ensures ReceiveAll(ch, fs[..k + 1]) == Receive(ch, ReceiveAll(ch, fs[..k]), fs[k])
  {
    assert fs[..k + 1][..k] == fs[..k];
  }

  lemma {:induction false} TakesPrefix(ch: Channel, st: Stream, k: nat)
    requires OpensAll(ch, st) && k <= |st.ps|
    ensures InStream(ch, st, ReceiveAll(ch, Frs(ch, st)[..k])) && |ReceiveAll(ch, Frs(ch, st)[..k]).delivered| == k
  {
    if k > 0 {
      TakesPrefix(ch, st, k - 1);
      ReceiveSnoc(ch, Frs(ch, st), k - 1);
      StepsOn(ch, st, ReceiveAll(ch, Frs(ch, st)[..k - 1]));
    }
  }

  lemma WholeStream(ch: Channel, st: Stream)
    requires OpensAll(ch, st)
    ensures ReceiveAll(ch, Frs(ch, st)).delivered == st.ps
  {
    TakesPrefix(ch, st, |st.ps|);
    assert Frs(ch, st)[..|st.ps|] == Frs(ch, st) && st.ps[..|st.ps|] == st.ps;
  }

  /** A receiver that is given the frames of any stream of the key, however old, delivers
      it whole: nothing ties a response stream to the request that it answers. */
  lemma OldStreamReplays(ch: Channel, streams: seq<Stream>, s: nat)
    requires FamilyIdeal(ch, streams) && s < |streams|
    ensures streams[s].Valid() && ReceiveAll(ch, Frs(ch, streams[s])).delivered == streams[s].ps
  {
    IdealCore(ch, streams);
    Member(ch, streams, s);
    WholeStream(ch, streams[s]);
  }

  // ---- the assumptions can be met ----

  /** Hashes to the second 48 bytes. */
  function TailHash(x: bytes): (h: bytes)
    ensures |h| == 48
  {
    if |x| == 96 then x[48..] else ZeroHash()
  }

  ghost predicate Hashing(ch: Channel) {
    forall x :: ch.hash(x) == TailHash(x)
  }

  ghost predicate Plain(ch: Channel) {
    forall n, a, x :: ch.seal(n, a, x) == x
  }

  lemma OneChunk(ch: Channel, c: nat, p: bytes)
    requires Plain(ch)
    ensures Cts(ch, Stream([c], [p])) == [p]
    ensures Frs(ch, Stream([c], [p])) == [Frame(c, p)]
  {
  }

  lemma TailHashed(ch: Channel, p: bytes)
    requires Hashing(ch) && |p| == 48
    ensures ch.hash(HashInput(ch, [p], 0)) == p
  {
    assert [p][..0] == [];
    assert (ZeroHash() + p)[48..] == p;
  }

  /** A stream of one chunk, 48 bytes long and not zero. */
  ghost predicate Single(st: Stream) {
    st.Valid() && |st.ps| == 1 && |st.ps[0]| == 48 && st.ps[0] != ZeroHash()
  }

  /** Streams of that kind, all different. */
  ghost predicate Singles(streams: seq<Stream>) {
    && (forall s :: 0 <= s < |streams| ==> Single(streams[s]))
    && (forall s, t :: 0 <= s < t < |streams| ==> streams[s].ps[0] != streams[t].ps[0])
  }

  lemma SingleChunk(ch: Channel, st: Stream)
    requires Plain(ch) && Hashing(ch) && Single(st)
    ensures Cts(ch, st) == st.ps && ch.hash(HashInput(ch, st.ps, 0)) == st.ps[0]
  {
    assert st.counters == [st.counters[0]] && st.ps == [st.ps[0]];
    OneChunk(ch, st.counters[0], st.ps[0]);
    TailHashed(ch, st.ps[0]);
  }

  lemma SingleNoCollision(ch: Channel, st: Stream, ut: Stream)
    requires Plain(ch) && Hashing(ch) && Single(st) && Single(ut)
    ensures NoCollision(ch, Cts(ch, st), Cts(ch, ut))
  {
    SingleChunk(ch, st);
    SingleChunk(ch, ut);
    assert st.ps == [st.ps[0]] && ut.ps == [ut.ps[0]];
  }

  lemma SinglesNotZero(ch: Channel, streams: seq<Stream>)
    requires Plain(ch) && Hashing(ch) && Singles(streams) && AllStreams(streams)
    ensures NoZero(ch, streams)
  {
    forall s, i | 0 <= s < |streams| && 0 <= i < |streams[s].ps|
      ensures ch.hash(HashInput(ch, Cts(ch, streams[s]), i)) != ZeroHash()
    {
      SingleChunk(ch, streams[s]);
    }
  }

  lemma SinglesNoCollision(ch: Channel, streams: seq<Stream>)
    requires Plain(ch) && Hashing(ch) && Singles(streams) && AllStreams(streams)
    ensures NoCollisions(ch, streams)
  {
    forall s, t | 0 <= s < |streams| && 0 <= t < |streams|
      ensures NoCollision(ch, Cts(ch, streams[s]), Cts(ch, streams[t]))
    {
      SingleNoCollision(ch, streams[s], streams[t]);
    }
  }

  lemma SinglesApart(ch: Channel, streams: seq<Stream>)
    requires Plain(ch) && Hashing(ch) && Singles(streams) && AllStreams(streams)
    ensures Apart(ch, streams)
  {
    forall s, t | 0 <= s < t < |streams| && |streams[s].ps| > 0 && |streams[t].ps| > 0
      ensures Cts(ch, streams[s])[0] != Cts(ch, streams[t])[0]
    {
      SingleChunk(ch, streams[s]);
      SingleChunk(ch, streams[t]);
    }
  }

  ghost predicate IsChunkOf(iv: Iv, st: Stream, n: bytes, x: bytes)
    requires |st.counters| == |st.ps|
  {
    |st.ps| > 0 && n == Nonce(iv, st.counters[0]) && x == st.ps[0]
  }

  /** Opens the one chunk of each stream under its own nonce. */
  ghost predicate OpensSingles(ch: Channel, streams: seq<Stream>)
    requires AllStreams(streams)
  {
    && (forall n, a, x :: ch.open(n, a, x).Some? ==>
          a == ch.aad + ZeroHash() && exists s :: 0 <= s < |streams| && IsChunkOf(ch.iv, streams[s], n, x))
    && (forall n, x, s :: 0 <= s < |streams| && IsChunkOf(ch.iv, streams[s], n, x) ==>
          ch.open(n, ch.aad + ZeroHash(), x) == Some(x))
  }

  lemma SingleSealed(ch: Channel, st: Stream, n: bytes, x: bytes)
    requires Plain(ch) && Hashing(ch) && Single(st) && IsChunkOf(ch.iv, st, n, x)
    ensures SealedIn(ch, st, 0, n, ch.aad + ZeroHash(), x)
  {
    SingleChunk(ch, st);
    assert st.ps[..0] == [];
  }

  lemma SinglesAuthentic(ch: Channel, streams: seq<Stream>)
    requires Plain(ch) && Hashing(ch) && Singles(streams) && AllStreams(streams) && OpensSingles(ch, streams)
    ensures FamilyAuthentic(ch, streams)
  {
    forall n: bytes, a: bytes, x: bytes | |a| == |ch.aad| + 48 && ch.open(n, a, x).Some?
      ensures exists s, i :: 0 <= s < |streams| && SealedIn(ch, streams[s], i, n, a, x)
    {
      var s :| 0 <= s < |streams| && IsChunkOf(ch.iv, streams[s], n, x);
      SingleSealed(ch, streams[s], n, x);
    }
  }

  lemma SingleOpens(ch: Channel, st: Stream)
    requires Plain(ch) && Hashing(ch) && Single(st)
    requires ch.open(Nonce(ch.iv, st.counters[0]), ch.aad + ZeroHash(), st.ps[0]) == Some(st.ps[0])
    ensures Opens(ch, st.counters, st.ps)
  {
    SingleChunk(ch, st);
    assert st.ps[..0] == [];
  }

  lemma SinglesOpenAt(ch: Channel, streams: seq<Stream>, s: nat, st: Stream)
    requires Plain(ch) && Hashing(ch) && AllStreams(streams) && OpensSingles(ch, streams)
    requires s < |streams| && st == streams[s] && Single(st)
    ensures OpensAll(ch, st)
  {
    assert IsChunkOf(ch.iv, streams[s], Nonce(ch.iv, st.counters[0]), st.ps[0]);
    SingleOpens(ch, st);
  }

  lemma SinglesOpen(ch: Channel, streams: seq<Stream>)
    requires Plain(ch) && Hashing(ch) && Singles(streams) && AllStreams(streams) && OpensSingles(ch, streams)
    ensures AllOpen(ch, streams)
  {
    forall s | 0 <= s < |streams|
      ensures OpensAll(ch, streams[s])
    {
      SinglesOpenAt(ch, streams, s, streams[s]);
    }
  }

  function SinglesOpening(iv: Iv, aad: bytes, streams: seq<Stream>, n: bytes, a: bytes, x: bytes): Option<bytes>
    requires forall s :: 0 <= s < |streams| ==> |streams[s].counters| == |streams[s].ps| == 1
  {
    if a == aad + ZeroHash()
       && exists s :: 0 <= s < |streams| && n == Nonce(iv, streams[s].counters[0]) && x == streams[s].ps[0]
    then Some(x) else None
  }

  lemma OpeningIsSingles(ch: Channel, streams: seq<Stream>)
    requires Singles(streams) && AllStreams(streams)
    requires forall n, a, x :: ch.open(n, a, x) == SinglesOpening(ch.iv, ch.aad, streams, n, a, x)
    ensures OpensSingles(ch, streams)
  {
  }

  /** For any number of such streams there is an ideal channel. */
  lemma FamilyExists(iv: Iv, aad: bytes, streams: seq<Stream>) returns (ch: Channel)
    requires Singles(streams)
    ensures FamilyIdeal(ch, streams)
  {
    ch := Channel(iv, aad, TailHash, (n, a, x) => x, (n, a, x) => SinglesOpening(iv, aad, streams, n, a, x));
    SinglesNotZero(ch, streams);
    SinglesNoCollision(ch, streams);
    SinglesApart(ch, streams);
    OpeningIsSingles(ch, streams);
    SinglesAuthentic(ch, streams);
    SinglesOpen(ch, streams);
  }
}
