/** The attested handshake: the server's executor and the client's finish, written
    separately as in the two crates, and the proof that they agree. */
module Handshake {
  import opened Bytes
  import opened Outcomes
  import opened Transcript
  import opened KeyExchange
  import opened KeySchedule

  datatype Crypto = Crypto(kem: Primitives, sha384: bytes -> bytes, sha512: bytes -> bytes, hkdf: Hkdf)

  // ---- negotiation ----

  /** The first candidate that is also accepted: `iter().find(..)`. */
  function FirstIn<T(==)>(candidates: seq<T>, accepted: seq<T>): Option<T> {
    if |candidates| == 0 then None
    else if candidates[0] in accepted then Some(candidates[0])
    else FirstIn(candidates[1..], accepted)
  }

  /** Candidate i is accepted and no earlier one is. */
  ghost predicate FirstAt<T>(candidates: seq<T>, accepted: seq<T>, i: nat) {
    i < |candidates| && candidates[i] in accepted && forall j :: 0 <= j < i ==> candidates[j] !in accepted
  }

  ghost predicate Disjoint<T(!new)>(xs: seq<T>, ys: seq<T>) {
    forall x :: x in xs ==> x !in ys
  }

  /** The choice is common to both lists and nothing common comes before it in the
      candidates' order; there is none exactly when the lists are disjoint. */
  lemma {:induction false} FirstInIsPreferred<T(!new)>(candidates: seq<T>, accepted: seq<T>)
    ensures FirstIn(candidates, accepted).None? <==> Disjoint(candidates, accepted)
    ensures FirstIn(candidates, accepted).Some? ==>
              exists i: nat :: FirstAt(candidates, accepted, i) && candidates[i] == FirstIn(candidates, accepted).value
  {
    if |candidates| > 0 && candidates[0] in accepted {
      assert FirstAt(candidates, accepted, 0);
    } else if |candidates| > 0 {
      var rest := candidates[1..];
      FirstInIsPreferred(rest, accepted);
      assert forall x :: x in candidates <==> x == candidates[0] || x in rest;
      if FirstIn(rest, accepted).Some? {
        var i: nat :| FirstAt(rest, accepted, i) && rest[i] == FirstIn(rest, accepted).value;
        assert candidates[i + 1] == rest[i];
        assert forall j :: 1 <= j < i + 1 ==> candidates[j] == rest[j - 1];
        assert FirstAt(candidates, accepted, i + 1);
      }
    }
  }

  lemma FirstWins<T>(candidates: seq<T>, accepted: seq<T>)
    requires |candidates| > 0 && candidates[0] in accepted
    ensures FirstIn(candidates, accepted) == Some(candidates[0])
  {
  }

  lemma FirstOfTwo<T>(a: T, b: T, accepted: seq<T>)
    ensures FirstIn([a, b], accepted) ==
            if a in accepted then Some(a) else if b in accepted then Some(b) else None
  {
    assert [a, b][1..] == [b] && [b][1..] == [];
    assert FirstIn([b], accepted) == if b in accepted then Some(b) else FirstIn([], accepted);
  }

  datatype ServerConfig = ServerConfig(suites: seq<CipherSuite>, versions: seq<ProtocolVersion>)

  /** Empty lists stand for the defaults. */
  function SupportedSuites(config: ServerConfig): seq<CipherSuite> {
    if config.suites == [] then [X25519MlKem768Aes256GcmSha384, P384MlKem1024Aes256GcmSha384] else config.suites
  }

  function SupportedVersions(config: ServerConfig): seq<ProtocolVersion> {
    if config.versions == [] then [V2, V1] else config.versions
  }

  // ---- messages ----

  datatype AtHsRequest = AtHsRequest(
    suites: seq<CipherSuite>,
    versions: seq<ProtocolVersion>,
    random: bytes,
    challenge: bytes,
    share: KeyShare)

  datatype AtHsResponse = AtHsResponse(
    suite: CipherSuite,
    version: ProtocolVersion,
    random: bytes,
    ecdhePublic: bytes,
    mlkemPublic: bytes,
    ciphertext: bytes)

  // ---- server ----

  datatype HandshakeError = NoCipherSuiteOverlap | NoVersionOverlap | KeyExchangeFailed

  datatype ServerResult =
    | ServerFailed(error: HandshakeError)
    | ServerDone(response: AtHsResponse, keys: SessionKeys, transcriptHash: bytes, serverReport: bytes,
                 clientReport: bytes)

  function ServerView(req: AtHsRequest, suite: CipherSuite, version: ProtocolVersion, random: bytes, share: KeyShare,
                      ct: bytes): View
  {
    View(req.random, req.challenge, req.share.ecdhePublic, req.share.mlkemPublic,
         random, share.ecdhePublic, ct, share.mlkemPublic, suite, version)
  }

  /** `compute_transcript_hash`. */
  method ComputeTranscriptHash(c: Crypto, req: AtHsRequest, suite: CipherSuite, version: ProtocolVersion,
                               serverRandom: bytes, share: KeyShare, ct: bytes)
    returns (hash: bytes)
    ensures hash == c.sha384(Preimage(ServerView(req, suite, version, serverRandom, share, ct)))
  {
    var hasher := new Hasher();
    ghost var v := ServerView(req, suite, version, serverRandom, share, ct);
    ghost var fs := [];
    hasher.UpdateField(req.random, fs);
    fs := fs + [req.random];
    hasher.UpdateField(req.challenge, fs);
    fs := fs + [req.challenge];
    hasher.UpdateField(req.share.ecdhePublic, fs);
    fs := fs + [req.share.ecdhePublic];
    hasher.UpdateField(req.share.mlkemPublic, fs);
    fs := fs + [req.share.mlkemPublic];
    hasher.UpdateField(serverRandom, fs);
    fs := fs + [serverRandom];
    hasher.UpdateField(share.ecdhePublic, fs);
    fs := fs + [share.ecdhePublic];
    hasher.UpdateField(ct, fs);
    fs := fs + [ct];
    hasher.UpdateField(share.mlkemPublic, fs);
    fs := fs + [share.mlkemPublic];
    assert fs == ClientFields(v) + ServerFields(v);
    hasher.Update(BigEndian(SuiteId(suite), 2));
    hasher.Update([VersionId(version)]);
    ConcatAssoc(Fields(8, fs), BigEndian(SuiteId(suite), 2), [VersionId(version)]);
    hash := c.sha384(hasher.absorbed);
  }

  /** The binding that the server expects in the client's quotes. */
  method ExpectedClientReport(c: Crypto, req: AtHsRequest) returns (report: bytes)
    ensures report == ClientReport(c, [req.random, req.challenge, req.share.ecdhePublic, req.share.mlkemPublic])
  {
    var hasher := new Hasher();
    ghost var fs := [];
    hasher.UpdateField(req.random, fs);
    fs := fs + [req.random];
    hasher.UpdateField(req.challenge, fs);
    fs := fs + [req.challenge];
    hasher.UpdateField(req.share.ecdhePublic, fs);
    fs := fs + [req.share.ecdhePublic];
    hasher.UpdateField(req.share.mlkemPublic, fs);
    assert fs + [req.share.mlkemPublic] == [req.random, req.challenge, req.share.ecdhePublic, req.share.mlkemPublic];
    report := c.sha512(CLIENT_PREFIX + c.sha384(hasher.absorbed));
  }

  /** Report data of a client quote over the four client fields. */
  function ClientReport(c: Crypto, fields: seq<bytes>): bytes {
    c.sha512(CLIENT_PREFIX + c.sha384(Fields(8, fields)))
  }

  /** Report data of a server quote over a transcript hash. */
  function ServerReport(c: Crypto, transcriptHash: bytes): bytes {
    c.sha512(SERVER_PREFIX + transcriptHash)
  }

  /** `execute_server`; key pair, encapsulation coins and random are arguments. */
  function ExecuteServer(c: Crypto, config: ServerConfig, req: AtHsRequest, pair: KemPair, coins: bytes, random: bytes):
    ServerResult
  {
    match FirstIn(SupportedSuites(config), req.suites)
    case None => ServerFailed(NoCipherSuiteOverlap)
    case Some(suite) =>
      match FirstIn(req.versions, SupportedVersions(config))
      case None => ServerFailed(NoVersionOverlap)
      case Some(version) =>
        match ServerCombine(c.kem, pair, coins, req.share)
        case None => ServerFailed(KeyExchangeFailed)
        case Some((secret, ct)) =>
          var share := PublicKeyShare(c.kem, pair);
          var hash := c.sha384(Preimage(ServerView(req, suite, version, random, share, ct)));
          ServerDone(AtHsResponse(suite, version, random, share.ecdhePublic, share.mlkemPublic, ct),
                     Derive(c.hkdf, secret, hash), hash, ServerReport(c, hash),
                     ClientReport(c, [req.random, req.challenge, req.share.ecdhePublic, req.share.mlkemPublic]))
  }

  /** The suite is chosen in the server's order and the version in the client's; the
      handshake fails for want of one exactly when there is nothing in common. */
  lemma Negotiation(c: Crypto, config: ServerConfig, req: AtHsRequest, pair: KemPair, coins: bytes, random: bytes)
    ensures var s := ExecuteServer(c, config, req, pair, coins, random);
            && (s == ServerFailed(NoCipherSuiteOverlap) <==> Disjoint(SupportedSuites(config), req.suites))
            && (s == ServerFailed(NoVersionOverlap) <==>
                !Disjoint(SupportedSuites(config), req.suites) && Disjoint(req.versions, SupportedVersions(config)))
            && (s.ServerDone? ==>
                && (exists i: nat :: FirstAt(SupportedSuites(config), req.suites, i)
                                     && SupportedSuites(config)[i] == s.response.suite)
                && (exists i: nat :: FirstAt(req.versions, SupportedVersions(config), i)
                                     && req.versions[i] == s.response.version))
  {
    FirstInIsPreferred(SupportedSuites(config), req.suites);
    FirstInIsPreferred(req.versions, SupportedVersions(config));
  }

  /** What the key exchange of a request needs of the primitives. */
  ghost predicate Exchangeable(c: Primitives, share: KeyShare, pair: KemPair, coins: bytes) {
    && c.agree(pair.ecdhe, share.ecdhePublic).Some?
    && c.encapsulate(share.mlkemPublic, coins).Some?
    && |share.ecdhePublic| < 0x1_0000
    && |c.ecdhePublic(pair.ecdhe)| < 0x1_0000
    && |share.mlkemPublic| < 0x1_0000
    && |c.encapsulate(share.mlkemPublic, coins).value.1| < 0x1_0000
  }

  /** For every request the server completes the handshake exactly when the two sides have
      a suite and a version in common and the key exchange is possible; only when it is not
      does it fail in the key exchange. Its keys come from the agreed and the encapsulated
      secret, and the client is sent the ciphertext of the latter. */
  lemma ServerDoneIff(c: Crypto, config: ServerConfig, req: AtHsRequest, pair: KemPair, coins: bytes, random: bytes)
    ensures var s := ExecuteServer(c, config, req, pair, coins, random);
            var common := && !Disjoint(SupportedSuites(config), req.suites)
                          && !Disjoint(req.versions, SupportedVersions(config));
            && (s.ServerDone? <==> common && Exchangeable(c.kem, req.share, pair, coins))
            && (s == ServerFailed(KeyExchangeFailed) <==> common && !Exchangeable(c.kem, req.share, pair, coins))
            && (s.ServerDone? ==>
                var (mlkemSecret, ct) := c.kem.encapsulate(req.share.mlkemPublic, coins).value;
                var ecdheSecret := c.kem.agree(pair.ecdhe, req.share.ecdhePublic).value;
                var p := Publics(req.share.ecdhePublic, c.kem.ecdhePublic(pair.ecdhe), req.share.mlkemPublic, ct);
                && s.response.ciphertext == ct
                && s.response.ecdhePublic == c.kem.ecdhePublic(pair.ecdhe)
                && s.response.mlkemPublic == c.kem.mlkemPublic(pair.mlkem)
                && s.response.random == random
                && s.keys == Derive(c.hkdf, c.kem.combinerHkdf(CombinerIkm(ecdheSecret, mlkemSecret, p)),
                                    s.transcriptHash))
  {
    FirstInIsPreferred(SupportedSuites(config), req.suites);
    FirstInIsPreferred(req.versions, SupportedVersions(config));
    ServerCombineIff(c.kem, pair, coins, req.share);
  }

  lemma BothVersions(version: ProtocolVersion)
    ensures version in [V2, V1]
  {
    assert [V2, V1][0] == V2 && [V2, V1][1] == V1;
  }

  /** A server with the default lists prefers the hybrid suite with X25519 and takes the
      one with P-384 if only that is offered; of the versions it takes the first offered. */
  lemma DefaultChoice(c: Crypto, req: AtHsRequest, pair: KemPair, coins: bytes, random: bytes)
    ensures var s := ExecuteServer(c, ServerConfig([], []), req, pair, coins, random);
            var first, second := X25519MlKem768Aes256GcmSha384, P384MlKem1024Aes256GcmSha384;
            && (s == ServerFailed(NoCipherSuiteOverlap) <==> first !in req.suites && second !in req.suites)
            && (s.ServerDone? ==>
                && s.response.suite == (if first in req.suites then first else second)
                && |req.versions| > 0 && s.response.version == req.versions[0])
  {
    FirstOfTwo(X25519MlKem768Aes256GcmSha384, P384MlKem1024Aes256GcmSha384, req.suites);
    if |req.versions| > 0 {
      BothVersions(req.versions[0]);
      FirstWins(req.versions, [V2, V1]);
    }
  }

  /** A server with the default lists has both of what the client offers. */
  lemma DefaultsServe(c: Crypto, client: KemPair, clientRandom: bytes, challenge: bytes,
                      pair: KemPair, coins: bytes, random: bytes)
    ensures var s := ExecuteServer(c, ServerConfig([], []), ClientRequest(c, client, clientRandom, challenge),
                                   pair, coins, random);
            && (s.ServerDone? <==> Exchangeable(c.kem, PublicKeyShare(c.kem, client), pair, coins))
            && (s.ServerDone? ==> s.response.suite == X25519MlKem768Aes256GcmSha384 && s.response.version == V2)
  {
    var config := ServerConfig([], []);
    var req := ClientRequest(c, client, clientRandom, challenge);
    assert X25519MlKem768Aes256GcmSha384 in SupportedSuites(config) && X25519MlKem768Aes256GcmSha384 in req.suites;
    assert V2 in SupportedVersions(config) && V2 in req.versions;
    ServerDoneIff(c, config, req, pair, coins, random);
  }

  // ---- client ----

  function Zeros(n: nat): (z: bytes)
    ensures |z| == n && forall i :: 0 <= i < n ==> z[i] == 0
  {
    seq(n, _ => 0)
  }

  /** The challenge in a zeroed 48-byte array: cut off or padded. */
  function Pad48(challenge: Option<bytes>): (p: bytes)
    ensures |p| == 48
    ensures forall i :: 0 <= i < 48 ==>
              p[i] == if challenge.Some? && i < |challenge.value| then challenge.value[i] else 0
  {
    match challenge
    case None => Zeros(48)
    case Some(c) => if |c| >= 48 then c[..48] else c + Zeros(48 - |c|)
  }

  /** The server random as the client reads it: the first 32 bytes, or zeros. */
  function ReadRandom(random: bytes): (r: bytes)
    ensures |r| == 32
    ensures if |random| >= 32 then r <= random else forall i :: 0 <= i < 32 ==> r[i] == 0
  {
    if |random| >= 32 then random[..32] else Zeros(32)
  }

  function ClientView(clientRandom: bytes, challenge: Option<bytes>, share: KeyShare, resp: AtHsResponse): View {
    View(clientRandom, Pad48(challenge), share.ecdhePublic, share.mlkemPublic,
         ReadRandom(resp.random), resp.ecdhePublic, resp.ciphertext, resp.mlkemPublic, resp.suite, resp.version)
  }

  method PadChallenge(challenge: Option<bytes>) returns (challengeBytes: bytes)
    ensures challengeBytes == Pad48(challenge)
  {
    challengeBytes := Zeros(48);
    match challenge {
      case None =>
      case Some(c) =>
        var len := if |c| < 48 then |c| else 48;
        challengeBytes := c[..len] + challengeBytes[len..];
    }
  }

  /** The transcript hash of `attest_handshake`. */
  method ClientTranscriptHash(c: Crypto, clientRandom: bytes, challenge: Option<bytes>, share: KeyShare,
                              resp: AtHsResponse)
    returns (hash: bytes)
    ensures hash == c.sha384(Preimage(ClientView(clientRandom, challenge, share, resp)))
  {
    var serverRandom := Zeros(32);
    if |resp.random| >= 32 {
      serverRandom := resp.random[..32];
    }
    var challengeBytes := PadChallenge(challenge);
    hash := HashClientSide(c, clientRandom, challengeBytes, share, serverRandom, resp);
  }

  method HashClientSide(c: Crypto, clientRandom: bytes, challengeBytes: bytes, share: KeyShare, serverRandom: bytes,
                        resp: AtHsResponse)
    returns (hash: bytes)
    ensures var v := View(clientRandom, challengeBytes, share.ecdhePublic, share.mlkemPublic, serverRandom,
                          resp.ecdhePublic, resp.ciphertext, resp.mlkemPublic, resp.suite, resp.version);
            hash == c.sha384(Preimage(v))
  {
    var hasher := new Hasher();
    ghost var v := View(clientRandom, challengeBytes, share.ecdhePublic, share.mlkemPublic, serverRandom,
                        resp.ecdhePublic, resp.ciphertext, resp.mlkemPublic, resp.suite, resp.version);
    ghost var fs := [];
    hasher.UpdateField(clientRandom, fs);
    fs := fs + [clientRandom];
    hasher.UpdateField(challengeBytes, fs);
    fs := fs + [challengeBytes];
    hasher.UpdateField(share.ecdhePublic, fs);
    fs := fs + [share.ecdhePublic];
    hasher.UpdateField(share.mlkemPublic, fs);
    fs := fs + [share.mlkemPublic];
    hasher.UpdateField(serverRandom, fs);
    fs := fs + [serverRandom];
    hasher.UpdateField(resp.ecdhePublic, fs);
    fs := fs + [resp.ecdhePublic];
    hasher.UpdateField(resp.ciphertext, fs);
    fs := fs + [resp.ciphertext];
    hasher.UpdateField(resp.mlkemPublic, fs);
    fs := fs + [resp.mlkemPublic];
    assert fs == ClientFields(v) + ServerFields(v);
    hasher.Update(BigEndian(SuiteId(resp.suite), 2));
    hasher.Update([VersionId(resp.version)]);
    ConcatAssoc(Fields(8, fs), BigEndian(SuiteId(resp.suite), 2), [VersionId(resp.version)]);
    hash := c.sha384(hasher.absorbed);
  }

  /** `generate_client_quote`, up to the call of the enclave. */
  method ClientQuoteReport(c: Crypto, clientRandom: bytes, challenge: Option<bytes>, share: KeyShare)
    returns (report: bytes)
    ensures report == ClientReport(c, [clientRandom, Pad48(challenge), share.ecdhePublic, share.mlkemPublic])
  {
    var challengeBytes := PadChallenge(challenge);
    var hasher := new Hasher();
    ghost var fs := [];
    hasher.UpdateField(clientRandom, fs);
    fs := fs + [clientRandom];
    hasher.UpdateField(challengeBytes, fs);
    fs := fs + [challengeBytes];
    hasher.UpdateField(share.ecdhePublic, fs);
    fs := fs + [share.ecdhePublic];
    hasher.UpdateField(share.mlkemPublic, fs);
    assert fs + [share.mlkemPublic] == [clientRandom, challengeBytes, share.ecdhePublic, share.mlkemPublic];
    report := c.sha512(CLIENT_PREFIX + c.sha384(hasher.absorbed));
  }

  /** What the client offers: one suite and one version. */
  function ClientRequest(c: Crypto, pair: KemPair, clientRandom: bytes, wireChallenge: bytes): AtHsRequest {
    AtHsRequest([X25519MlKem768Aes256GcmSha384], [V2], clientRandom, wireChallenge, PublicKeyShare(c.kem, pair))
  }

  datatype ClientResult =
    | ClientFailed
    | ClientDone(keys: SessionKeys, transcriptHash: bytes, serverReport: bytes, suite: CipherSuite,
                 version: ProtocolVersion)

  /** The client's side after the response has arrived. The session is labelled with
      the one suite and version it offered, not with those of the response. */
  function FinishClient(c: Crypto, pair: KemPair, clientRandom: bytes, challenge: Option<bytes>, resp: AtHsResponse):
    ClientResult
  {
    var hash := c.sha384(Preimage(ClientView(clientRandom, challenge, PublicKeyShare(c.kem, pair), resp)));
    match ClientCombine(c.kem, pair, resp.ecdhePublic, resp.ciphertext)
    case None => ClientFailed
    case Some(secret) =>
      ClientDone(Derive(c.hkdf, secret, hash), hash, ServerReport(c, hash), X25519MlKem768Aes256GcmSha384, V2)
  }

  /** The client completes the handshake exactly when it can agree with the server's
      share and open the ciphertext and no public value is too long. */
  lemma ClientDoneIff(c: Crypto, pair: KemPair, clientRandom: bytes, challenge: Option<bytes>, resp: AtHsResponse)
    ensures var r := FinishClient(c, pair, clientRandom, challenge, resp);
            var agreed := c.kem.agree(pair.ecdhe, resp.ecdhePublic);
            var undone := c.kem.decapsulate(pair.mlkem, resp.ciphertext);
            && (r.ClientDone? <==>
                && agreed.Some?
                && undone.Some?
                && |c.kem.ecdhePublic(pair.ecdhe)| < 0x1_0000
                && |resp.ecdhePublic| < 0x1_0000
                && |c.kem.mlkemPublic(pair.mlkem)| < 0x1_0000
                && |resp.ciphertext| < 0x1_0000)
            && (r.ClientDone? ==>
                var p := Publics(c.kem.ecdhePublic(pair.ecdhe), resp.ecdhePublic, c.kem.mlkemPublic(pair.mlkem),
                                 resp.ciphertext);
                r.keys == Derive(c.hkdf, c.kem.combinerHkdf(CombinerIkm(agreed.value, undone.value, p)),
                                 r.transcriptHash))
  {
    ClientCombineIff(c.kem, pair, resp.ecdhePublic, resp.ciphertext);
  }

  // ---- agreement ----

  /** If the server completes a handshake that this client started and its response
      arrives unchanged, then the client completes it too, and both sides hold the
      same transcript hash, the same nine session-key slots, the same report data
      for either quote, and the same suite and version. */
  lemma Agreement(c: Crypto, config: ServerConfig, client: KemPair, clientRandom: bytes, challenge: Option<bytes>,
                  server: KemPair, coins: bytes, serverRandom: bytes)
    requires Lawful(c.kem) && |serverRandom| == 32
    requires var req := ClientRequest(c, client, clientRandom, Pad48(challenge));
             ExecuteServer(c, config, req, server, coins, serverRandom).ServerDone?
    ensures var req := ClientRequest(c, client, clientRandom, Pad48(challenge));
            var s := ExecuteServer(c, config, req, server, coins, serverRandom);
            && FinishClient(c, client, clientRandom, challenge, s.response) ==
               ClientDone(s.keys, s.transcriptHash, s.serverReport, s.response.suite, s.response.version)
            && s.clientReport ==
               ClientReport(c, [clientRandom, Pad48(challenge)] + ShareFields(PublicKeyShare(c.kem, client)))
  {
    var req := ClientRequest(c, client, clientRandom, Pad48(challenge));
    OnlyOffered(SupportedSuites(config), X25519MlKem768Aes256GcmSha384);
    assert FirstIn([V2], SupportedVersions(config)) == Some(V2) by {
      FirstInIsPreferred([V2], SupportedVersions(config));
    }
    SecretsAgree(c.kem, client, server, coins);
    assert serverRandom[..32] == serverRandom;
    assert [clientRandom, Pad48(challenge)] + ShareFields(PublicKeyShare(c.kem, client)) ==
           [req.random, req.challenge, req.share.ecdhePublic, req.share.mlkemPublic];
  }

  function ShareFields(share: KeyShare): seq<bytes> {
    [share.ecdhePublic, share.mlkemPublic]
  }

  /** A client that offers one thing can only get that. */
  lemma {:induction false} OnlyOffered<T>(candidates: seq<T>, offer: T)
    ensures FirstIn(candidates, [offer]).Some? ==> FirstIn(candidates, [offer]).value == offer
  {
    if |candidates| > 0 && candidates[0] !in [offer] {
      OnlyOffered(candidates[1..], offer);
    }
  }

  // ---- disagreement is noticed ----

  ghost predicate Collision(hash: bytes -> bytes, x: bytes, y: bytes) {
    x != y && hash(x) == hash(y)
  }

  /** Two views with the same transcript hash are the same view, or else a SHA-384
      collision has been found. */
  lemma HashBindsView(c: Crypto, v: View, w: View)
    requires Sized(v) && Sized(w)
    requires c.sha384(Preimage(v)) == c.sha384(Preimage(w))
    ensures v == w || Collision(c.sha384, Preimage(v), Preimage(w))
  {
    if Preimage(v) == Preimage(w) {
      PreimageInjective(v, w);
    }
  }

  function ResponseView(req: AtHsRequest, resp: AtHsResponse): View {
    var share := KeyShare(resp.ecdhePublic, resp.mlkemPublic);
    ServerView(req, resp.suite, resp.version, resp.random, share, resp.ciphertext)
  }

  /** One key of a session. */
  function KeyOf(keys: SessionKeys, slot: Slot): bytes {
    match slot
    case MasterSecret => keys.masterSecret
    case ResumptionMaster => keys.resumptionMasterSecret
    case ClientWriteKey => keys.clientWriteKey
    case ServerWriteKey => keys.serverWriteKey
    case ClientWriteIv => keys.clientWriteIv
    case ServerWriteIv => keys.serverWriteIv
    case ClientMacKey => keys.clientMacKey
    case ServerMacKey => keys.serverMacKey
  }

  lemma KeyOfDerived(hkdf: Hkdf, secret: bytes, hash: bytes, slot: Slot)
    ensures KeyOf(Derive(hkdf, secret, hash), slot) == Key(hkdf, secret, OneRtt(hash), slot)
  {
  }

  function BoundTo(c: Crypto, v: View): Binding {
    OneRtt(c.sha384(Preimage(v)))
  }

  /** The combined secret and the view from which each side derived its keys. */
  ghost predicate Derived(c: Crypto, keys: SessionKeys, secret: bytes, v: View) {
    keys == Derive(c.hkdf, secret, c.sha384(Preimage(v)))
  }

  /** If some key of one session equals some key of another, then it is the key of the
      same slot, from the same combined secret and the same view of the handshake, or
      else HKDF or SHA-384 has collided on the way to it. */
  lemma KeyDeterminesView(c: Crypto, keys: SessionKeys, secret: bytes, v: View, slot: Slot,
                          keys': SessionKeys, secret': bytes, v': View, slot': Slot)
    requires Derived(c, keys, secret, v) && Derived(c, keys', secret', v') && Sized(v) && Sized(v')
    requires KeyOf(keys, slot) == KeyOf(keys', slot')
    ensures || (secret, v, slot) == (secret', v', slot')
            || Collision(c.sha384, Preimage(v), Preimage(v'))
            || HkdfCollision(c.hkdf, secret, BoundTo(c, v), slot, secret', BoundTo(c, v'), slot')
  {
    var h, h' := c.sha384(Preimage(v)), c.sha384(Preimage(v'));
    KeyOfDerived(c.hkdf, secret, h, slot);
    KeyOfDerived(c.hkdf, secret', h', slot');
    KeyDeterminesOrigin(c.hkdf, secret, OneRtt(h), slot, secret', OneRtt(h'), slot');
    if h == h' {
      HashBindsView(c, v, v');
    }
  }

  /** A server that answers some request and a client that processes some response; what
      happened to the messages in between is open. */
  datatype Attempt = Attempt(c: Crypto, config: ServerConfig, req: AtHsRequest, server: KemPair, coins: bytes,
                             serverRandom: bytes, client: KemPair, clientRandom: bytes, challenge: Option<bytes>,
                             resp: AtHsResponse)
  {
    function Server(): ServerResult {
      ExecuteServer(c, config, req, server, coins, serverRandom)
    }

    function Client(): ClientResult {
      FinishClient(c, client, clientRandom, challenge, resp)
    }

    function Seen(): View {
      ClientView(clientRandom, challenge, PublicKeyShare(c.kem, client), resp)
    }

    function Answered(): View
      requires Server().ServerDone?
    {
      ResponseView(req, Server().response)
    }

    ghost predicate Completed() {
      Server().ServerDone? && Client().ClientDone? && Sized(Seen()) && Sized(Answered())
    }

    function ServerSecret(): bytes
      requires Server().ServerDone?
    {
      ServerCombine(c.kem, server, coins, req.share).value.0
    }

    function ClientSecret(): bytes
      requires Client().ClientDone?
    {
      ClientCombine(c.kem, client, resp.ecdhePublic, resp.ciphertext).value
    }

    /** Hashing or deriving collides on the way to these two keys. */
    ghost predicate Collides(slot: Slot, slot': Slot)
      requires Server().ServerDone? && Client().ClientDone?
    {
      || Collision(c.sha384, Preimage(Seen()), Preimage(Answered()))
      || HkdfCollision(c.hkdf, ClientSecret(), BoundTo(c, Seen()), slot, ServerSecret(), BoundTo(c, Answered()), slot')
    }
  }

  /** So if a key of the client's session equals a key of the server's, whatever
      happened to the messages on the way, both sides saw the same handshake: the
      request that the server answered is the client's, and the response that the
      client processed is the server's. */
  lemma EqualKeyMeansEqualViews(a: Attempt, slot: Slot, slot': Slot)
    requires a.Completed() && KeyOf(a.Client().keys, slot) == KeyOf(a.Server().keys, slot')
    ensures || (a.ClientSecret() == a.ServerSecret() && a.Seen() == a.Answered() && slot == slot')
            || a.Collides(slot, slot')
  {
    KeyDeterminesView(a.c, a.Client().keys, a.ClientSecret(), a.Seen(), slot,
                      a.Server().keys, a.ServerSecret(), a.Answered(), slot');
  }

  /** And with the secrets of their fixed size, both sides have put the same two component
      secrets and the same public values into the combiner. */
  lemma EqualKeyMeansEqualInputs(a: Attempt, slot: Slot, slot': Slot)
    requires a.Completed() && KeyOf(a.Client().keys, slot) == KeyOf(a.Server().keys, slot') && FixedSize(a.c.kem)
    ensures var ci := ClientInputs(a.c.kem, a.client, a.resp.ecdhePublic, a.resp.ciphertext).value;
            var si := ServerInputs(a.c.kem, a.server, a.coins, a.req.share).value;
            || (ci == si && a.Seen() == a.Answered() && slot == slot')
            || CombinerCollision(a.c.kem, ci, si)
            || a.Collides(slot, slot')
  {
    EqualKeyMeansEqualViews(a, slot, slot');
    if a.ClientSecret() == a.ServerSecret() {
      SecretDeterminesInputs(a.c.kem, ClientInputs(a.c.kem, a.client, a.resp.ecdhePublic, a.resp.ciphertext).value,
                             ServerInputs(a.c.kem, a.server, a.coins, a.req.share).value);
    }
  }

  /** A server quote is accepted for one transcript only, and a client quote never
      passes for a server quote, barring collisions. */
  lemma QuoteBindsTranscript(c: Crypto, v: View, w: View)
    requires Sized(v) && Sized(w)
    requires ServerReport(c, c.sha384(Preimage(v))) == ServerReport(c, c.sha384(Preimage(w)))
    ensures || v == w
            || Collision(c.sha384, Preimage(v), Preimage(w))
            || Collision(c.sha512, SERVER_PREFIX + c.sha384(Preimage(v)), SERVER_PREFIX + c.sha384(Preimage(w)))
  {
    var x, y := c.sha384(Preimage(v)), c.sha384(Preimage(w));
    if SERVER_PREFIX + x == SERVER_PREFIX + y {
      SplitAt(SERVER_PREFIX, x, SERVER_PREFIX, y);
      HashBindsView(c, v, w);
    }
  }

  lemma RolesDoNotMix(c: Crypto, v: View, fields: seq<bytes>)
    requires ServerReport(c, c.sha384(Preimage(v))) == ClientReport(c, fields)
    ensures Collision(c.sha512, SERVER_PREFIX + c.sha384(Preimage(v)), CLIENT_PREFIX + c.sha384(Fields(8, fields)))
  {
    RolesSeparated(c.sha384(Preimage(v)), c.sha384(Fields(8, fields)));
  }
}
