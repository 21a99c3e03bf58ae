/** The request stream as the client sends it: every chunk is sealed inside a call of
    `with_keys_for_trr` under a nonce of its own, drawn at random, and only the chunks
    whose nonce passes the client's own replay check are sealed. */
module RequestStream {
  import opened Bytes
  import opened Frames
  import opened ReplayGuard
  import opened Session
  import opened StreamChannel
  import AeadNonce
  import GuardedStream

  /** The replay state of the client's session. */
  datatype Local = Local(committed: seq<nat>, lastSeen: nat)

  ghost predicate Lets(strategy: ReplayStrategy, l: Local, nonce: nat) {
    Passes(strategy, l.committed, l.lastSeen, nonce)
  }

  ghost function Next(strategy: ReplayStrategy, l: Local, nonce: nat): Local {
    if !Lets(strategy, l, nonce) then l
    else Local(l.committed + [nonce], if strategy.StrictMonotonic? then nonce else l.lastSeen)
  }

  ghost function After(strategy: ReplayStrategy, l: Local, nonces: seq<nat>): Local {
    if |nonces| == 0 then l
    else Next(strategy, After(strategy, l, nonces[..|nonces| - 1]), nonces[|nonces| - 1])
  }

  /** Which nonces pass. */
  ghost function Passing(strategy: ReplayStrategy, l: Local, nonces: seq<nat>): (flags: seq<bool>)
    ensures |flags| == |nonces|
  {
    if |nonces| == 0 then []
    else
      var front := nonces[..|nonces| - 1];
      Passing(strategy, l, front) + [Lets(strategy, After(strategy, l, front), nonces[|nonces| - 1])]
  }

  /** The chunks that are flagged. */
  function Select(flags: seq<bool>, ps: seq<bytes>): (kept: seq<bytes>)
    requires |flags| == |ps|
    ensures |kept| <= |ps|
  {
    if |ps| == 0 then []
    else
      var k := |ps| - 1;
      var front := Select(flags[..k], ps[..k]);
      if flags[k] then front + [ps[k]] else front
  }

  /** The chunks whose nonces pass. */
  ghost function Kept(strategy: ReplayStrategy, l: Local, nonces: seq<nat>, ps: seq<bytes>): seq<bytes>
    requires |nonces| == |ps|
  {
    Select(Passing(strategy, l, nonces), ps)
  }

  /** The counters of one session, one after the other. */
  function From(start: nat, k: nat): (counters: seq<nat>)
    ensures |counters| == k && forall i :: 0 <= i < k ==> counters[i] == start + i
  {
    seq(k, i requires 0 <= i < k => start + i)
  }

  ghost function LocalOf(session: AttestSession): Local
    reads session
  {
    Local(session.committed, session.strictLastSeen)
  }

  lemma SealSnoc(ch: Channel, counters: seq<nat>, ps: seq<bytes>, counter: nat, p: bytes)
    requires |counters| == |ps|
    ensures SealAll(ch, counters + [counter], ps + [p]) ==
            var cts := SealAll(ch, counters, ps);
            cts + [ch.seal(AeadNonce.Nonce(ch.iv, counter), ch.aad + Chain(ch, cts), p)]
  {
    assert (counters + [counter])[..|ps|] == counters && (ps + [p])[..|ps|] == ps;
  }

  lemma SentSnoc(ch: Channel, counters: seq<nat>, ps: seq<bytes>, counter: nat, p: bytes, data: bytes)
    requires |counters| == |ps|
    requires SealAll(ch, counters + [counter], ps + [p]) == SealAll(ch, counters, ps) + [data]
    ensures Sent(ch, counters + [counter], ps + [p]) == Sent(ch, counters, ps) + [Frame(counter, data)]
  {
  }

  lemma FromSnoc(start: nat, k: nat)
    ensures From(start, k) + [start + k] == From(start, k + 1)
  {
  }

  /** The chunks sealed so far, and all that goes with them. */
  ghost predicate Sealed(ch: Channel, counters: seq<nat>, kept: seq<bytes>, frames: seq<Frame>, hash: bytes) {
    && |counters| == |kept|
    && frames == Sent(ch, counters, kept)
    && hash == Chain(ch, SealAll(ch, counters, kept))
  }

  lemma SealedNext(ch: Channel, counters: seq<nat>, kept: seq<bytes>, frames: seq<Frame>, hash: bytes, c: nat, p: bytes)
    requires Sealed(ch, counters, kept, frames, hash)
    ensures var data := ch.seal(AeadNonce.Nonce(ch.iv, c), ch.aad + hash, p);
            Sealed(ch, counters + [c], kept + [p], frames + [Frame(c, data)], ch.hash(hash + data))
  {
    var data := ch.seal(AeadNonce.Nonce(ch.iv, c), ch.aad + hash, p);
    SealSnoc(ch, counters, kept, c, p);
    SentSnoc(ch, counters, kept, c, p, data);
    ChainSnoc(ch, SealAll(ch, counters, kept), data);
  }

  ghost predicate SealedFrom(ch: Channel, start: nat, counter: nat, kept: seq<bytes>, frames: seq<Frame>, hash: bytes) {
    counter == start + |kept| && Sealed(ch, From(start, |kept|), kept, frames, hash)
  }

  lemma SealedTurn(ch: Channel, start: nat, counter: nat, kept: seq<bytes>, frames: seq<Frame>, hash: bytes, p: bytes)
    requires SealedFrom(ch, start, counter, kept, frames, hash)
    ensures var data := ch.seal(AeadNonce.Nonce(ch.iv, counter), ch.aad + hash, p);
            SealedFrom(ch, start, counter + 1, kept + [p], frames + [Frame(counter, data)], ch.hash(hash + data))
  {
    SealedNext(ch, From(start, |kept|), kept, frames, hash, counter, p);
    FromSnoc(start, |kept|);
  }

  /** One turn of the sealing closure; sealing itself does not fail. `start` and `kept`
      are the first counter and the chunks sealed so far. */
  method SealChunk(session: AttestSession, ch: Channel, nonce: nat, p: bytes, hash: bytes, frames: seq<Frame>,
                   ghost start: nat, ghost kept: seq<bytes>)
    returns (sealed: bool, nextHash: bytes, more: seq<Frame>)
    requires session.Valid() && session.clientCounter < U64_MAX
    requires SealedFrom(ch, start, session.clientCounter, kept, frames, hash)
    modifies session, session.guard, session.guard.window
    ensures session.Valid() && session.guard.window == old(session.guard.window)
    ensures LocalOf(session) == Next(session.strategy, old(LocalOf(session)), nonce)
    ensures sealed == Lets(session.strategy, old(LocalOf(session)), nonce)
    ensures SealedFrom(ch, start, session.clientCounter, if sealed then kept + [p] else kept, more, nextHash)
  {
    SealedTurn(ch, start, session.clientCounter, kept, frames, hash, p);
    var outcome := session.WithKeysForTrr(true, true, nonce, true);
    if !outcome.Ran? {
      return false, hash, frames;
    }
    var aeadNonce := AeadNonce.BuildAeadNonce(outcome.counter, ch.iv);
    var data := ch.seal(aeadNonce, ch.aad + hash, p);
    return true, ch.hash(hash + data), frames + [Frame(outcome.counter, data)];
  }

  lemma PassingSnoc(strategy: ReplayStrategy, l: Local, nonces: seq<nat>, k: nat)
    requires k < |nonces|
    ensures var l' := After(strategy, l, nonces[..k]);
            && After(strategy, l, nonces[..k + 1]) == Next(strategy, l', nonces[k])
            && Passing(strategy, l, nonces[..k + 1]) ==
               Passing(strategy, l, nonces[..k]) + [Lets(strategy, l', nonces[k])]
  {
    assert nonces[..k + 1][..k] == nonces[..k];
  }

  lemma SelectSnoc(flags: seq<bool>, ps: seq<bytes>, k: nat, flag: bool)
    requires |flags| == k < |ps|
    ensures Select(flags + [flag], ps[..k + 1]) ==
            if flag then Select(flags, ps[..k]) + [ps[k]] else Select(flags, ps[..k])
  {
    assert (flags + [flag])[..k] == flags && ps[..k + 1][..k] == ps[..k];
  }

  /** The sealing closure of the client over its session: which chunks are sealed, and
      their frames, under consecutive counters. */
  method SealRequest(session: AttestSession, ch: Channel, nonces: seq<nat>, ps: seq<bytes>)
    returns (sealed: seq<bool>, frames: seq<Frame>)
    requires session.Valid() && |nonces| == |ps| && session.clientCounter + |ps| <= U64_MAX
    modifies session, session.guard, session.guard.window
    ensures session.Valid()
    ensures sealed == Passing(session.strategy, old(LocalOf(session)), nonces)
    ensures var kept := Select(sealed, ps);
            && frames == Sent(ch, From(old(session.clientCounter), |kept|), kept)
            && session.clientCounter == old(session.clientCounter) + |kept|
    ensures LocalOf(session) == After(session.strategy, old(LocalOf(session)), nonces)
  {
    ghost var l, start := LocalOf(session), session.clientCounter;
    sealed, frames := [], [];
    var cumulativeHash := ZeroHash();
    for k := 0 to |ps|
      invariant session.Valid() && session.guard.window == old(session.guard.window)
      invariant LocalOf(session) == After(session.strategy, l, nonces[..k])
      invariant sealed == Passing(session.strategy, l, nonces[..k])
      invariant SealedFrom(ch, start, session.clientCounter, Select(sealed, ps[..k]), frames, cumulativeHash)
    {
      PassingSnoc(session.strategy, l, nonces, k);
      var passed;
      passed, cumulativeHash, frames :=
        SealChunk(session, ch, nonces[k], ps[k], cumulativeHash, frames, start, Select(sealed, ps[..k]));
      SelectSnoc(sealed, ps, k, passed);
      sealed := sealed + [passed];
    }
    assert nonces[..|ps|] == nonces && ps[..|ps|] == ps;
  }

  lemma ChainSnoc(ch: Channel, cts: seq<bytes>, c: bytes)
    ensures Chain(ch, cts + [c]) == ch.hash(Chain(ch, cts) + c)
  {
    assert (cts + [c])[..|cts|] == cts;
  }

  // ---- when is the whole stream sealed? ----

  ghost predicate GoodAt(committed: seq<nat>, nonce: nat) {
    nonce >= 1 && nonce !in committed && nonce + 64 * WORDS > Highest(committed)
  }

  /** At its turn, after the nonces before it were committed, each nonce is positive, new
      and less than a window below the largest one. */
  ghost predicate Good(committed: seq<nat>, nonces: seq<nat>) {
    |nonces| == 0 ||
    var front := nonces[..|nonces| - 1];
    Good(committed, front) && GoodAt(committed + front, nonces[|nonces| - 1])
  }

  ghost predicate AllPass(flags: seq<bool>) {
    forall i :: 0 <= i < |flags| ==> flags[i]
  }

  lemma {:induction false} AllPassIff(l: Local, nonces: seq<nat>)
    requires Disciplined(l.committed, WORDS)
    ensures AllPass(Passing(SlidingWindow, l, nonces)) <==> Good(l.committed, nonces)
    ensures Good(l.committed, nonces) ==>
              && After(SlidingWindow, l, nonces).committed == l.committed + nonces
              && Disciplined(l.committed + nonces, WORDS)
  {
    if |nonces| == 0 {
      assert l.committed + nonces == l.committed;
    } else {
      var k := |nonces| - 1;
      var front := nonces[..k];
      AllPassIff(l, front);
      AllPassSnoc(Passing(SlidingWindow, l, front), Lets(SlidingWindow, After(SlidingWindow, l, front), nonces[k]));
      if Good(l.committed, front) {
        LetsIff(After(SlidingWindow, l, front), nonces[k]);
        Regroup(l.committed, nonces);
      }
    }
  }

  lemma AllPassSnoc(flags: seq<bool>, flag: bool)
    ensures AllPass(flags + [flag]) <==> AllPass(flags) && flag
  {
    assert (flags + [flag])[|flags|] == flag;
    assert forall i :: 0 <= i < |flags| ==> (flags + [flag])[i] == flags[i];
  }

  /** Everything is selected exactly if everything is flagged. */
  lemma {:induction false} SelectAll(flags: seq<bool>, ps: seq<bytes>)
    requires |flags| == |ps|
    ensures |Select(flags, ps)| == |ps| <==> AllPass(flags)
    ensures AllPass(flags) ==> Select(flags, ps) == ps
  {
    if |ps| > 0 {
      var k := |ps| - 1;
      SelectAll(flags[..k], ps[..k]);
      assert flags == flags[..k] + [flags[k]] && ps == ps[..k] + [ps[k]];
      AllPassSnoc(flags[..k], flags[k]);
    }
  }

  lemma Regroup(a: seq<nat>, b: seq<nat>)
    requires |b| > 0
    ensures a + b[..|b| - 1] + [b[|b| - 1]] == a + b
  {
  }

  lemma LetsIff(l: Local, nonce: nat)
    requires Disciplined(l.committed, WORDS)
    ensures Lets(SlidingWindow, l, nonce) <==> GoodAt(l.committed, nonce)
    ensures GoodAt(l.committed, nonce) ==> Disciplined(l.committed + [nonce], WORDS)
  {
    ExactWhenDisciplined(l.committed, WORDS, nonce);
    if GoodAt(l.committed, nonce) {
      DisciplineKept(l.committed, WORDS, nonce);
    }
  }

  /** Under the client's sliding window the whole stream is sealed exactly when every
      nonce is good at its turn. */
  lemma AllSealedIff(l: Local, nonces: seq<nat>, ps: seq<bytes>)
    requires |nonces| == |ps| && Disciplined(l.committed, WORDS)
    ensures Kept(SlidingWindow, l, nonces, ps) == ps <==> Good(l.committed, nonces)
  {
    AllPassIff(l, nonces);
    SelectAll(Passing(SlidingWindow, l, nonces), ps);
  }

  // ---- and what the server makes of it ----

  /** Counters of one client session are fresh for a server that has committed nothing
      from its first one on. */
  lemma SessionCountersFresh(start: nat, k: nat, gate: GuardedStream.Gate)
    requires Highest(gate.committed) < start && gate.lastSeen < start
    ensures GuardedStream.Fresh(From(start, k), gate)
  {
  }

  /** From client to server: of the chunks that the client's nonces let through, the
      server delivers the longest prefix whose frames arrived in order. */
  lemma RequestArrives(ch: Channel, l: Local, start: nat, nonces: seq<nat>, ps: seq<bytes>, gate: GuardedStream.Gate,
                       fs: seq<Frame>)
    requires |nonces| == |ps| && AllValid(fs)
    requires Highest(gate.committed) < start && gate.lastSeen < start
    requires var kept := Kept(SlidingWindow, l, nonces, ps);
             Ideal(ch, From(start, |kept|), kept)
    ensures var kept := Kept(SlidingWindow, l, nonces, ps);
            var k := Matched(Sent(ch, From(start, |kept|), kept), fs);
            GuardedStream.ReadFrames(SlidingWindow, ch, gate, fs).receiver.delivered == kept[..k]
  {
    var kept := Kept(SlidingWindow, l, nonces, ps);
    SessionCountersFresh(start, |kept|, gate);
    GuardedStream.SlidingTransparent(ch, From(start, |kept|), kept, gate, fs);
  }
}
