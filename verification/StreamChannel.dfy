/** The streaming channel: every chunk is sealed under additional data that ends
    in a running hash of all earlier ciphertexts. Sender and receiver are the
    closures of the client and the server; hash and AEAD are parameters. */
module StreamChannel {
  import opened Bytes
  import opened Outcomes
  import opened AeadNonce
  import opened Frames

  /** One direction of a session: the write IV, the session part of the additional
      data, SHA-384, and AEAD sealing and opening under the write key. */
  datatype Channel = Channel(
    iv: Iv,
    aad: bytes,
    hash: bytes -> bytes,
    seal: (bytes, bytes, bytes) -> bytes,
    open: (bytes, bytes, bytes) -> Option<bytes>)

  function ZeroHash(): (z: bytes)
    ensures |z| == 48
  {
    seq(48, _ => 0)
  }

  /** The running hash after the given ciphertexts. */
  function Chain(ch: Channel, cts: seq<bytes>): bytes {
    if |cts| == 0 then ZeroHash()
    else ch.hash(Chain(ch, cts[..|cts| - 1]) + cts[|cts| - 1])
  }

  /** The ciphertexts of the given chunks, chunk i sealed with counter i of `counters`. */
  function SealAll(ch: Channel, counters: seq<nat>, ps: seq<bytes>): (cts: seq<bytes>)
    requires |counters| == |ps|
    ensures |cts| == |ps|
  {
    if |ps| == 0 then []
    else
      var k := |ps| - 1;
      var cts := SealAll(ch, counters[..k], ps[..k]);
      cts + [ch.seal(Nonce(ch.iv, counters[k]), ch.aad + Chain(ch, cts), ps[k])]
  }

  function FramesOf(counters: seq<nat>, cts: seq<bytes>): (fs: seq<Frame>)
    requires |counters| == |cts|
    ensures |fs| == |cts|
  {
    seq(|cts|, i requires 0 <= i < |cts| => Frame(counters[i], cts[i]))
  }

  /** The frames a sender puts on the wire. */
  function Sent(ch: Channel, counters: seq<nat>, ps: seq<bytes>): (fs: seq<Frame>)
    requires |counters| == |ps|
    ensures |fs| == |ps|
  {
    FramesOf(counters, SealAll(ch, counters, ps))
  }

  /** The sealing closure, run over a stream of chunks. */
  method SealStream(ch: Channel, counters: seq<nat>, ps: seq<bytes>) returns (frames: seq<Frame>)
    requires |counters| == |ps|
    ensures frames == Sent(ch, counters, ps)
  {
    frames := [];
    var cumulativeHash := ZeroHash();
    for k := 0 to |ps|
      invariant frames == Sent(ch, counters[..k], ps[..k])
      invariant cumulativeHash == Chain(ch, SealAll(ch, counters[..k], ps[..k]))
    {
      var aeadNonce := BuildAeadNonce(counters[k], ch.iv);
      var data := ch.seal(aeadNonce, ch.aad + cumulativeHash, ps[k]);
      cumulativeHash := ch.hash(cumulativeHash + data);
      frames := frames + [Frame(counters[k], data)];
      assert counters[..k + 1][..k] == counters[..k] && ps[..k + 1][..k] == ps[..k];
    }
    assert counters[..|ps|] == counters && ps[..|ps|] == ps;
  }

  // ---- the receiver ----

  /** What the receiver keeps: the running hash; and what it has handed on. */
  datatype Receiver = Receiver(hash: bytes, delivered: seq<bytes>, accepted: seq<Frame>)

  function Start(): Receiver {
    Receiver(ZeroHash(), [], [])
  }

  /** The opening closure on one frame. A frame that does not open changes nothing. */
  function Receive(ch: Channel, r: Receiver, f: Frame): Receiver {
    match ch.open(Nonce(ch.iv, f.counter), ch.aad + r.hash, f.ciphertext)
    case None => r
    case Some(p) => Receiver(ch.hash(r.hash + f.ciphertext), r.delivered + [p], r.accepted + [f])
  }

  function ReceiveAll(ch: Channel, fs: seq<Frame>): Receiver {
    if |fs| == 0 then Start()
    else Receive(ch, ReceiveAll(ch, fs[..|fs| - 1]), fs[|fs| - 1])
  }

  /** The decrypting stream, polled past the errors of the transport until that is used
      up: the frames of all its bytes are opened one after the other. */
  method OpenStream(ch: Channel, source: seq<Item>) returns (delivered: seq<bytes>, errors: seq<string>, last: Outcome)
    ensures delivered == ReceiveAll(ch, Split(Data(source)).0).delivered && errors == Errors(source)
    ensures last == if Split(Data(source)).1 == [] then End else Incomplete
  {
    var frames;
    frames, errors, last := ReadOn(source);
    delivered := [];
    var prevHash := ZeroHash();
    for k := 0 to |frames|
      invariant delivered == ReceiveAll(ch, frames[..k]).delivered
      invariant prevHash == ReceiveAll(ch, frames[..k]).hash
    {
      var frame := frames[k];
      assert frames[..k + 1][..k] == frames[..k];
      var aeadNonce := BuildAeadNonce(frame.counter, ch.iv);
      var nextHash := ch.hash(prevHash + frame.ciphertext);
      match ch.open(aeadNonce, ch.aad + prevHash, frame.ciphertext) {
        case Some(p) =>
          delivered := delivered + [p];
          prevHash := nextHash;
        case None =>
      }
    }
    assert frames[..|frames|] == frames;
  }

  // ---- assumptions on the primitives, for one run of the sender ----

  /** The bytes the sender hashes after sealing chunk i. */
  function HashInput(ch: Channel, cts: seq<bytes>, i: nat): bytes
    requires i < |cts|
  {
    Chain(ch, cts[..i]) + cts[i]
  }

  /** Hashes are 48 bytes long; among the inputs that this sender hashed there is
      no collision, and none hashes to the initial value. */
  ghost predicate ChainSound(ch: Channel, cts: seq<bytes>) {
    && (forall x :: |ch.hash(x)| == 48)
    && (forall i :: 0 <= i < |cts| ==> ch.hash(HashInput(ch, cts, i)) != ZeroHash())
    && (forall i, j :: 0 <= i < j < |cts| && ch.hash(HashInput(ch, cts, i)) == ch.hash(HashInput(ch, cts, j)) ==>
          HashInput(ch, cts, i) == HashInput(ch, cts, j))
  }

  /** Ciphertext integrity: what opens under additional data that ends in a running hash
      was sealed by this sender, under the same nonce and additional data. Nothing is
      said of other additional data, so the key may also seal single messages, whose
      additional data is the session part alone. */
  ghost predicate Authentic(ch: Channel, counters: seq<nat>, ps: seq<bytes>)
    requires |counters| == |ps|
  {
    forall n, a, c :: |a| == |ch.aad| + 48 && ch.open(n, a, c).Some? ==>
      exists i :: 0 <= i < |ps| && IsSealed(ch, counters, ps, i, n, a, c) && ch.open(n, a, c).value == ps[i]
  }

  ghost predicate IsSealed(ch: Channel, counters: seq<nat>, ps: seq<bytes>, i: nat, n: bytes, a: bytes, c: bytes)
    requires |counters| == |ps| && i < |ps|
  {
    var cts := SealAll(ch, counters, ps);
    n == Nonce(ch.iv, counters[i]) && a == ch.aad + Chain(ch, cts[..i]) && c == cts[i]
  }

  /** What this sender sealed opens again under the same nonce and additional data. */
  ghost predicate Opens(ch: Channel, counters: seq<nat>, ps: seq<bytes>)
    requires |counters| == |ps|
  {
    var cts := SealAll(ch, counters, ps);
    forall i :: 0 <= i < |ps| ==>
      ch.open(Nonce(ch.iv, counters[i]), ch.aad + Chain(ch, cts[..i]), cts[i]) == Some(ps[i])
  }

  // ---- the chain never repeats ----

  lemma ChainStep(ch: Channel, cts: seq<bytes>, i: nat)
    requires i < |cts|
    ensures Chain(ch, cts[..i + 1]) == ch.hash(HashInput(ch, cts, i))
  {
    assert cts[..i + 1][..i] == cts[..i];
  }

  lemma ChainLength(ch: Channel, cts: seq<bytes>)
    requires forall x :: |ch.hash(x)| == 48
    ensures |Chain(ch, cts)| == 48
  {
  }

  lemma {:induction false} ChainsDistinct(ch: Channel, cts: seq<bytes>, i: nat, j: nat)
    requires ChainSound(ch, cts)
    requires i <= j <= |cts| && Chain(ch, cts[..i]) == Chain(ch, cts[..j])
    ensures i == j
  {
    if i < j {
      ChainStep(ch, cts, j - 1);
      if i > 0 {
        ChainStep(ch, cts, i - 1);
        ChainLength(ch, cts[..i - 1]);
        ChainLength(ch, cts[..j - 1]);
        SplitAt(Chain(ch, cts[..i - 1]), cts[i - 1], Chain(ch, cts[..j - 1]), cts[j - 1]);
        ChainsDistinct(ch, cts, i - 1, j - 1);
      }
    }
  }

  // ---- what the receiver accepts ----

  /** The receiver has taken exactly the first |delivered| frames of the sender. */
  ghost predicate InStep(ch: Channel, counters: seq<nat>, ps: seq<bytes>, r: Receiver)
    requires |counters| == |ps|
  {
    var k := |r.delivered|;
    && k <= |ps|
    && r.delivered == ps[..k]
    && r.accepted == Sent(ch, counters, ps)[..k]
    && r.hash == Chain(ch, SealAll(ch, counters, ps)[..k])
  }

  ghost predicate Ideal(ch: Channel, counters: seq<nat>, ps: seq<bytes>)
    requires |counters| == |ps|
  {
    && ChainSound(ch, SealAll(ch, counters, ps))
    && Authentic(ch, counters, ps)
    && Opens(ch, counters, ps)
    && forall i :: 0 <= i < |counters| ==> counters[i] < U64_SIZE
  }

  lemma WhoSealed(ch: Channel, counters: seq<nat>, ps: seq<bytes>, n: bytes, a: bytes, c: bytes) returns (i: nat)
    requires |counters| == |ps| && Authentic(ch, counters, ps) && |a| == |ch.aad| + 48 && ch.open(n, a, c).Some?
    ensures i < |ps| && IsSealed(ch, counters, ps, i, n, a, c)
  {
    i :| 0 <= i < |ps| && IsSealed(ch, counters, ps, i, n, a, c) && ch.open(n, a, c).value == ps[i];
  }

  /** What is sealed under the running hash of step k is the ciphertext of step k. */
  lemma HashTellsStep(ch: Channel, counters: seq<nat>, ps: seq<bytes>, i: nat, k: nat, n: bytes, c: bytes)
    requires |counters| == |ps| && ChainSound(ch, SealAll(ch, counters, ps)) && i < |ps| && k <= |ps|
    requires IsSealed(ch, counters, ps, i, n, ch.aad + Chain(ch, SealAll(ch, counters, ps)[..k]), c)
    ensures i == k
  {
    var cts := SealAll(ch, counters, ps);
    SplitAt(ch.aad, Chain(ch, cts[..k]), ch.aad, Chain(ch, cts[..i]));
    SameStep(ch, cts, k, i);
  }

  lemma OnlyNextOpens(ch: Channel, counters: seq<nat>, ps: seq<bytes>, k: nat, f: Frame)
    requires |counters| == |ps| && Ideal(ch, counters, ps) && k <= |ps| && f.counter < U64_SIZE
    requires ch.open(Nonce(ch.iv, f.counter), ch.aad + Chain(ch, SealAll(ch, counters, ps)[..k]), f.ciphertext).Some?
    ensures k < |ps| && f == Sent(ch, counters, ps)[k]
  {
    var n, a := Nonce(ch.iv, f.counter), ch.aad + Chain(ch, SealAll(ch, counters, ps)[..k]);
    ChainLength(ch, SealAll(ch, counters, ps)[..k]);
    var i := WhoSealed(ch, counters, ps, n, a, f.ciphertext);
    HashTellsStep(ch, counters, ps, i, k, n, f.ciphertext);
    NonceInjective(ch.iv, f.counter, counters[i]);
  }

  /** In step k, a frame opens exactly when it is the sender's frame k. */
  lemma OpensIffNext(ch: Channel, counters: seq<nat>, ps: seq<bytes>, r: Receiver, f: Frame)
    requires |counters| == |ps| && Ideal(ch, counters, ps) && InStep(ch, counters, ps, r)
    requires f.counter < U64_SIZE
    ensures var k := |r.delivered|;
            ch.open(Nonce(ch.iv, f.counter), ch.aad + r.hash, f.ciphertext) ==
            if k < |ps| && f == Sent(ch, counters, ps)[k] then Some(ps[k]) else None
  {
    if ch.open(Nonce(ch.iv, f.counter), ch.aad + r.hash, f.ciphertext).Some? {
      OnlyNextOpens(ch, counters, ps, |r.delivered|, f);
    }
  }

  lemma SameStep(ch: Channel, cts: seq<bytes>, i: nat, j: nat)
    requires ChainSound(ch, cts) && i <= |cts| && j <= |cts|
    requires Chain(ch, cts[..i]) == Chain(ch, cts[..j])
    ensures i == j
  {
    if i <= j {
      ChainsDistinct(ch, cts, i, j);
    } else {
      ChainsDistinct(ch, cts, j, i);
    }
  }

  /** How many of the sent frames are met, in order, among the received ones. */
  function Matched(sent: seq<Frame>, fs: seq<Frame>): (k: nat)
    ensures k <= |sent|
  {
    if |fs| == 0 then 0
    else
      var k := Matched(sent, fs[..|fs| - 1]);
      if k < |sent| && fs[|fs| - 1] == sent[k] then k + 1 else k
  }

  /** xs can be obtained from ys by leaving frames out. */
  ghost predicate Embeds(xs: seq<Frame>, ys: seq<Frame>)
    decreases |ys|
  {
    || |xs| == 0
    || (&& |ys| > 0
        && (|| (xs[|xs| - 1] == ys[|ys| - 1] && Embeds(xs[..|xs| - 1], ys[..|ys| - 1]))
            || Embeds(xs, ys[..|ys| - 1])))
  }

  /** The match count is the length of the longest sent prefix among the received frames. */
  lemma {:induction false} MatchedIsLongest(sent: seq<Frame>, fs: seq<Frame>, k: nat)
    requires k <= |sent|
    ensures Embeds(sent[..k], fs) <==> k <= Matched(sent, fs)
    decreases |fs|
  {
    if |fs| > 0 && k > 0 {
      var front := fs[..|fs| - 1];
      MatchedIsLongest(sent, front, k);
      MatchedIsLongest(sent, front, k - 1);
      assert sent[..k][..k - 1] == sent[..k - 1] && sent[..k][k - 1] == sent[k - 1];
    }
  }

  lemma ReceiveStep(ch: Channel, counters: seq<nat>, ps: seq<bytes>, r: Receiver, f: Frame)
    requires |counters| == |ps| && InStep(ch, counters, ps, r)
    requires var k := |r.delivered|;
             ch.open(Nonce(ch.iv, f.counter), ch.aad + r.hash, f.ciphertext) ==
             if k < |ps| && f == Sent(ch, counters, ps)[k] then Some(ps[k]) else None
    ensures var k := |r.delivered|;
            InStep(ch, counters, ps, Receive(ch, r, f)) &&
            |Receive(ch, r, f).delivered| == if k < |ps| && f == Sent(ch, counters, ps)[k] then k + 1 else k
  {
    var k := |r.delivered|;
    if k < |ps| && f == Sent(ch, counters, ps)[k] {
      ChainStep(ch, SealAll(ch, counters, ps), k);
      assert ps[..k + 1] == ps[..k] + [ps[k]];
    }
  }

  lemma {:induction false} ReceiverMatches(ch: Channel, counters: seq<nat>, ps: seq<bytes>, fs: seq<Frame>)
    requires |counters| == |ps| && Ideal(ch, counters, ps)
    requires AllValid(fs)
    ensures InStep(ch, counters, ps, ReceiveAll(ch, fs))
    ensures |ReceiveAll(ch, fs).delivered| == Matched(Sent(ch, counters, ps), fs)
  {
    if |fs| > 0 {
      var front, f := fs[..|fs| - 1], fs[|fs| - 1];
      ReceiverMatches(ch, counters, ps, front);
      assert ValidFrame(f);
      OpensIffNext(ch, counters, ps, ReceiveAll(ch, front), f);
      ReceiveStep(ch, counters, ps, ReceiveAll(ch, front), f);
    }
  }

  /** Whatever is dropped, repeated, reordered or inserted, the receiver delivers
      the chunks of the longest prefix of the sent frames that reached it in order,
      and nothing else. */
  lemma StreamIntegrity(ch: Channel, counters: seq<nat>, ps: seq<bytes>, fs: seq<Frame>)
    requires |counters| == |ps| && Ideal(ch, counters, ps)
    requires AllValid(fs)
    ensures var k := Matched(Sent(ch, counters, ps), fs);
            && ReceiveAll(ch, fs).delivered == ps[..k]
            && ReceiveAll(ch, fs).accepted == Sent(ch, counters, ps)[..k]
  {
    ReceiverMatches(ch, counters, ps, fs);
  }

  /** If every sent frame arrives in order, with anything at all in between, every
      chunk is delivered. */
  lemma NothingLost(ch: Channel, counters: seq<nat>, ps: seq<bytes>, fs: seq<Frame>)
    requires |counters| == |ps| && Ideal(ch, counters, ps)
    requires AllValid(fs) && Embeds(Sent(ch, counters, ps), fs)
    ensures ReceiveAll(ch, fs).delivered == ps
  {
    var sent := Sent(ch, counters, ps);
    assert sent[..|sent|] == sent && ps[..|sent|] == ps;
    MatchedIsLongest(sent, fs, |sent|);
    StreamIntegrity(ch, counters, ps, fs);
  }

  lemma {:induction false} EmbedsItself(fs: seq<Frame>)
    ensures Embeds(fs, fs)
  {
    if |fs| > 0 {
      EmbedsItself(fs[..|fs| - 1]);
    }
  }

  /** From the bytes of an arbitrary, possibly hostile transport the client gets a
      prefix of what the server sealed. */
  method OpenHostile(ch: Channel, counters: seq<nat>, ghost ps: seq<bytes>, source: seq<Item>)
    returns (delivered: seq<bytes>, errors: seq<string>, last: Outcome)
    requires |counters| == |ps| && Ideal(ch, counters, ps)
    ensures delivered == ps[..Matched(Sent(ch, counters, ps), Split(Data(source)).0)] && errors == Errors(source)
  {
    SplitSound(Data(source));
    StreamIntegrity(ch, counters, ps, Split(Data(source)).0);
    delivered, errors, last := OpenStream(ch, source);
  }

  /** From the server's own bytes, cut into chunks in any way, it gets all of it,
      and then the end of the stream. */
  method Transfer(ch: Channel, counters: seq<nat>, ps: seq<bytes>, chunks: seq<bytes>)
    returns (delivered: seq<bytes>, errors: seq<string>, last: Outcome)
    requires |counters| == |ps| && Ideal(ch, counters, ps)
    requires AllValid(Sent(ch, counters, ps))
    requires Joined(chunks) == EncodeAll(Sent(ch, counters, ps))
    ensures delivered == ps && errors == [] && last == End
  {
    var sent := SealStream(ch, counters, ps);
    AheadOfChunks(chunks);
    SplitUnique(sent, []);
    assert EncodeAll(sent) + [] == EncodeAll(sent);
    EmbedsItself(sent);
    NothingLost(ch, counters, ps, sent);
    delivered, errors, last := OpenStream(ch, Chunked(chunks));
  }
}
