/** Handshake and stream together: the response stream of a session whose keys come
    from a completed handshake. */
module EndToEnd {
  import opened Bytes
  import opened Frames
  import opened Handshake
  import opened IdealChannel
  import opened KeyExchange
  import opened KeySchedule
  import opened Outcomes
  import opened StreamChannel
  import Transcript

  /** AES-256-GCM: key, nonce, additional data, text. */
  datatype Aead = Aead(
    seal: (bytes, bytes, bytes, bytes) -> bytes,
    open: (bytes, bytes, bytes, bytes) -> Option<bytes>)

  /** HKDF gives as many bytes as are asked for. */
  ghost predicate ExactLength(hkdf: Hkdf) {
    forall prk, info, n :: |hkdf.expand(prk, info, n)| == n
  }

  const AAD_PREFIX: bytes := Ascii("openhttpa:")

  /** The direction from server to client, as either side sets it up from its keys
      and the session identifier. */
  function ResponseChannel(c: Crypto, aead: Aead, keys: SessionKeys, id: bytes): Channel
    requires |keys.serverWriteIv| == 12
  {
    Channel(keys.serverWriteIv, AAD_PREFIX + id, c.sha384,
            (n, a, p) => aead.seal(keys.serverWriteKey, n, a, p),
            (n, a, x) => aead.open(keys.serverWriteKey, n, a, x))
  }

  /** Everything that is fixed before the stream starts. */
  datatype Run = Run(c: Crypto, aead: Aead, config: ServerConfig, client: KemPair, clientRandom: bytes,
                     challenge: Option<bytes>, server: KemPair, coins: bytes, serverRandom: bytes, id: bytes)
  {
    function Server(): ServerResult {
      ExecuteServer(c, config, ClientRequest(c, client, clientRandom, Pad48(challenge)), server, coins, serverRandom)
    }

    function Client(): ClientResult
      requires Server().ServerDone?
    {
      FinishClient(c, client, clientRandom, challenge, Server().response)
    }
  }

  ghost predicate Fitting(keys: SessionKeys) {
    && |keys.masterSecret| == |keys.resumptionMasterSecret| == 48
    && |keys.clientWriteKey| == |keys.serverWriteKey| == 32
    && |keys.clientWriteIv| == |keys.serverWriteIv| == 12
    && |keys.clientMacKey| == |keys.serverMacKey| == 32
  }

  lemma DerivedSizes(hkdf: Hkdf, secret: bytes, transcriptHash: bytes)
    requires ExactLength(hkdf)
    ensures Fitting(Derive(hkdf, secret, transcriptHash))
  {
  }

  /** Every completed handshake gives keys of the sizes that SHA-384, AES-256-GCM and the
      record MACs need. */
  lemma KeySizes(run: Run)
    requires ExactLength(run.c.hkdf) && run.Server().ServerDone?
    ensures Fitting(run.Server().keys)
  {
    var req := ClientRequest(run.c, run.client, run.clientRandom, Pad48(run.challenge));
    var secret := ServerCombine(run.c.kem, run.server, run.coins, req.share).value.0;
    DerivedSizes(run.c.hkdf, secret, run.Server().transcriptHash);
  }

  lemma ChannelsAgree(run: Run)
    requires Lawful(run.c.kem) && ExactLength(run.c.hkdf) && |run.serverRandom| == 32
    requires run.Server().ServerDone?
    ensures run.Client().ClientDone?
    ensures run.Client().keys == run.Server().keys && |run.Server().keys.serverWriteIv| == 12
  {
    Agreement(run.c, run.config, run.client, run.clientRandom, run.challenge, run.server, run.coins, run.serverRandom);
    KeySizes(run);
  }

  /** Once the server has completed the handshake and its response has arrived, then
      whatever an adversary makes of the response stream, the client's receiver, set
      up from the client's own keys, delivers the longest prefix of the server's
      chunks whose frames reached it in order, and all of them if all did. */
  lemma HandshakeThenStream(run: Run, counters: seq<nat>, ps: seq<bytes>, fs: seq<Frame>)
    requires Lawful(run.c.kem) && ExactLength(run.c.hkdf) && |run.serverRandom| == 32
    requires run.Server().ServerDone? && |run.Server().keys.serverWriteIv| == 12
    requires |counters| == |ps| && Ideal(ResponseChannel(run.c, run.aead, run.Server().keys, run.id), counters, ps)
    requires AllValid(fs)
    ensures run.Client().ClientDone? && |run.Client().keys.serverWriteIv| == 12
    ensures var sent := Sent(ResponseChannel(run.c, run.aead, run.Server().keys, run.id), counters, ps);
            var delivered := ReceiveAll(ResponseChannel(run.c, run.aead, run.Client().keys, run.id), fs).delivered;
            delivered == ps[..Matched(sent, fs)] && (Embeds(sent, fs) ==> delivered == ps)
  {
    ChannelsAgree(run);
    var ch := ResponseChannel(run.c, run.aead, run.Server().keys, run.id);
    StreamIntegrity(ch, counters, ps, fs);
    if Embeds(Sent(ch, counters, ps), fs) {
      NothingLost(ch, counters, ps, fs);
    }
  }

  // ---- the assumptions can be met ----

  function TrivialKem(): Primitives {
    Primitives(_ => [], (_, _) => Some([]), _ => [], (_, _) => Some(([], [])), (_, _) => Some([]), _ => [])
  }

  function TrivialCrypto(): Crypto {
    Crypto(TrivialKem(), CountingHash, _ => [], Hkdf((_, _) => [], (_, _, n) => Zeros(n)))
  }

  lemma TrivialIsLawful()
    ensures Lawful(TrivialKem()) && ExactLength(TrivialCrypto().hkdf)
  {
  }

  lemma TrivialCombine(server: KemPair, coins: bytes, client: KemPair)
    ensures ServerCombine(TrivialKem(), server, coins, PublicKeyShare(TrivialKem(), client)) == Some(([], []))
  {
    WidthSizes();
    assert Fit(2, PublicFields(Publics([], [], [], [])));
  }

  lemma TrivialHandshake(run: Run)
    requires run.c == TrivialCrypto() && run.config == ServerConfig([], [])
    ensures run.Server().ServerDone?
  {
    TrivialCombine(run.server, run.coins, run.client);
    FirstWins(SupportedSuites(run.config), [Transcript.X25519MlKem768Aes256GcmSha384]);
    FirstWins([Transcript.V2], SupportedVersions(run.config));
  }

  /** For every stream of chunks, and whatever single responses the key seals beside it,
      there is a run to which the theorem applies. */
  lemma RunExists(id: bytes, u: Use) returns (run: Run)
    requires u.Valid()
    ensures Lawful(run.c.kem) && ExactLength(run.c.hkdf) && |run.serverRandom| == 32
    ensures run.Server().ServerDone? && |run.Server().keys.serverWriteIv| == 12
    ensures var ch := ResponseChannel(run.c, run.aead, run.Server().keys, run.id);
            && Ideal(ch, u.counters, u.ps)
            && forall n, x :: (n, x) in u.messages ==> ch.open(n, ch.aad, ch.seal(n, ch.aad, x)) == Some(x)
  {
    TrivialIsLawful();
    var none := Aead((_, _, _, p) => p, (_, _, _, _) => None);
    var pair := KemPair([], []);
    run := Run(TrivialCrypto(), none, ServerConfig([], []), pair, [], None, pair, [], Zeros(32), id);
    TrivialHandshake(run);
    ChannelsAgree(run);
    var keys := run.Server().keys;
    run := run.(aead := Aead((_, _, _, p) => p,
                             (_, n, a, x) => CountingOpen(keys.serverWriteIv, AAD_PREFIX + id, u, n, a, x)));
    assert run.Server().keys == keys;
    CountingIsIdeal(ResponseChannel(run.c, run.aead, keys, id), u);
  }
}
