/** The hybrid key exchange: the length-prefixed combiner of section 3.2 of
    draft-ietf-tls-hybrid-design, and the two paths that meet in it. */
module KeyExchange {
  import opened Bytes
  import opened Outcomes

  const LABEL: bytes := Ascii("openhttpa hybrid kem v1")

  datatype Publics = Publics(ecdheClient: bytes, ecdheServer: bytes, mlkemClient: bytes, ciphertext: bytes)

  function PublicFields(p: Publics): seq<bytes> {
    [LABEL, p.ecdheClient, p.ecdheServer, p.mlkemClient, p.ciphertext]
  }

  /** The input key material of the combiner. */
  function CombinerIkm(ecdhe: bytes, mlkem: bytes, p: Publics): bytes {
    ecdhe + mlkem + Fields(2, PublicFields(p))
  }

  /** With 32-byte secrets the material determines both secrets and every public
      value. */
  lemma CombinerIkmInjective(ecdhe: bytes, mlkem: bytes, p: Publics, ecdhe': bytes, mlkem': bytes, p': Publics)
    requires |ecdhe| == |mlkem| == |ecdhe'| == |mlkem'| == 32
    requires Fit(2, PublicFields(p)) && Fit(2, PublicFields(p'))
    requires CombinerIkm(ecdhe, mlkem, p) == CombinerIkm(ecdhe', mlkem', p')
    ensures ecdhe == ecdhe' && mlkem == mlkem' && p == p'
  {
    var f, f' := Fields(2, PublicFields(p)), Fields(2, PublicFields(p'));
    SplitAt(ecdhe + mlkem, f, ecdhe' + mlkem', f');
    SplitAt(ecdhe, mlkem, ecdhe', mlkem');
    assert f + [] == f && f' + [] == f';
    FieldsInjective(2, PublicFields(p), [], PublicFields(p'), []);
    assert PublicFields(p)[1] == PublicFields(p')[1] && PublicFields(p)[2] == PublicFields(p')[2];
    assert PublicFields(p)[3] == PublicFields(p')[3] && PublicFields(p)[4] == PublicFields(p')[4];
  }

  /** The secrets carry no length, so it does take their fixed size: moving a byte
      across the boundary between them leaves the material unchanged. */
  lemma SecretsNeedFixedSize(ecdhe: bytes, b: byte, mlkem: bytes, p: Publics)
    ensures CombinerIkm(ecdhe + [b], mlkem, p) == CombinerIkm(ecdhe, [b] + mlkem, p)
  {
    ConcatAssoc(ecdhe, [b], mlkem);
  }

  /** Appends a field with its 16-bit length; None is the panic on a field that is
      too long. `done` are the fields appended before. */
  method EncodeLengthed(ikm: Option<bytes>, data: bytes, ghost start: bytes, ghost done: seq<bytes>)
    returns (r: Option<bytes>)
    requires ikm == if Fit(2, done) then Some(start + Fields(2, done)) else None
    ensures r == if Fit(2, done + [data]) then Some(start + Fields(2, done + [data])) else None
  {
    WidthSizes();
    FieldsSnoc(2, done, data);
    assert Fit(2, done + [data]) <==> Fit(2, done) && |data| < U16_SIZE by {
      assert (done + [data])[|done|] == data;
      assert forall i :: 0 <= i < |done| ==> (done + [data])[i] == done[i];
    }
    if ikm.None? || |data| >= U16_SIZE {
      return None;
    }
    var v := ikm.value + BigEndian(|data|, 2);
    v := v + data;
    ConcatAssoc(ikm.value, BigEndian(|data|, 2), data);
    ConcatAssoc(start, Fields(2, done), Field(2, data));
    return Some(v);
  }

  /** `combine`, up to the HKDF call on the finished material. */
  method Combine(ecdhe: bytes, mlkem: bytes, p: Publics) returns (r: Option<bytes>)
    ensures r == if Fit(2, PublicFields(p)) then Some(CombinerIkm(ecdhe, mlkem, p)) else None
  {
    var start := ecdhe + mlkem;
    assert Fields(2, []) == [] && start + [] == start;
    r := EncodeLengthed(Some(start), LABEL, start, []);
    r := EncodeLengthed(r, p.ecdheClient, start, [] + [LABEL]);
    r := EncodeLengthed(r, p.ecdheServer, start, [] + [LABEL] + [p.ecdheClient]);
    r := EncodeLengthed(r, p.mlkemClient, start, [] + [LABEL] + [p.ecdheClient] + [p.ecdheServer]);
    r := EncodeLengthed(r, p.ciphertext, start, [] + [LABEL] + [p.ecdheClient] + [p.ecdheServer] + [p.mlkemClient]);
    assert [] + [LABEL] + [p.ecdheClient] + [p.ecdheServer] + [p.mlkemClient] + [p.ciphertext] == PublicFields(p);
  }

  // ---- the primitives ----

  /** X25519, ML-KEM-768 and the HKDF of the combiner, as functions; None stands for
      a rejected key or ciphertext. */
  datatype Primitives = Primitives(
    ecdhePublic: bytes -> bytes,
    agree: (bytes, bytes) -> Option<bytes>,
    mlkemPublic: bytes -> bytes,
    encapsulate: (bytes, bytes) -> Option<(bytes, bytes)>,
    decapsulate: (bytes, bytes) -> Option<bytes>,
    combinerHkdf: bytes -> bytes)

  /** Key agreement commutes, and decapsulation undoes encapsulation. */
  ghost predicate Lawful(c: Primitives) {
    && (forall a, b :: c.agree(a, c.ecdhePublic(b)) == c.agree(b, c.ecdhePublic(a)))
    && (forall key, coins :: c.encapsulate(c.mlkemPublic(key), coins).Some? ==>
          var (secret, ct) := c.encapsulate(c.mlkemPublic(key), coins).value;
          c.decapsulate(key, ct) == Some(secret))
  }

  datatype KemPair = KemPair(ecdhe: bytes, mlkem: bytes)

  datatype KeyShare = KeyShare(ecdhePublic: bytes, mlkemPublic: bytes)

  function PublicKeyShare(c: Primitives, pair: KemPair): KeyShare {
    KeyShare(c.ecdhePublic(pair.ecdhe), c.mlkemPublic(pair.mlkem))
  }

  function Combined(c: Primitives, ecdhe: bytes, mlkem: bytes, p: Publics): Option<bytes> {
    if Fit(2, PublicFields(p)) then Some(c.combinerHkdf(CombinerIkm(ecdhe, mlkem, p))) else None
  }

  /** What goes into the combiner on either side. */
  datatype Inputs = Inputs(ecdhe: bytes, mlkem: bytes, publics: Publics)

  function ServerInputs(c: Primitives, pair: KemPair, coins: bytes, clientShare: KeyShare): Option<Inputs> {
    match c.agree(pair.ecdhe, clientShare.ecdhePublic)
    case None => None
    case Some(ecdheSecret) =>
      match c.encapsulate(clientShare.mlkemPublic, coins)
      case None => None
      case Some((mlkemSecret, ct)) =>
        Some(Inputs(ecdheSecret, mlkemSecret,
                    Publics(clientShare.ecdhePublic, c.ecdhePublic(pair.ecdhe), clientShare.mlkemPublic, ct)))
  }

  /** Of the server's share only the ECDHE part is used. */
  function ClientInputs(c: Primitives, pair: KemPair, serverEcdhe: bytes, ct: bytes): Option<Inputs> {
    match c.agree(pair.ecdhe, serverEcdhe)
    case None => None
    case Some(ecdheSecret) =>
      match c.decapsulate(pair.mlkem, ct)
      case None => None
      case Some(mlkemSecret) =>
        Some(Inputs(ecdheSecret, mlkemSecret,
                    Publics(c.ecdhePublic(pair.ecdhe), serverEcdhe, c.mlkemPublic(pair.mlkem), ct)))
  }

  /** `server_combine`: the combined secret and the ciphertext for the client. */
  function ServerCombine(c: Primitives, pair: KemPair, coins: bytes, clientShare: KeyShare): Option<(bytes, bytes)> {
    match ServerInputs(c, pair, coins, clientShare)
    case None => None
    case Some(i) =>
      match Combined(c, i.ecdhe, i.mlkem, i.publics)
      case None => None
      case Some(secret) => Some((secret, i.publics.ciphertext))
  }

  /** `client_combine`. */
  function ClientCombine(c: Primitives, pair: KemPair, serverEcdhe: bytes, ct: bytes): Option<bytes> {
    match ClientInputs(c, pair, serverEcdhe, ct)
    case None => None
    case Some(i) => Combined(c, i.ecdhe, i.mlkem, i.publics)
  }

  /** Every public value has a 16-bit length. */
  predicate Short(p: Publics) {
    && |p.ecdheClient| < 0x1_0000
    && |p.ecdheServer| < 0x1_0000
    && |p.mlkemClient| < 0x1_0000
    && |p.ciphertext| < 0x1_0000
  }

  /** The label is 23 bytes long, so it never overflows its length. */
  lemma FitIffShort(p: Publics)
    ensures |LABEL| == 23
    ensures Fit(2, PublicFields(p)) <==> Short(p)
  {
    WidthSizes();
    var fs := PublicFields(p);
    assert fs[0] == LABEL && fs[1] == p.ecdheClient && fs[2] == p.ecdheServer;
    assert fs[3] == p.mlkemClient && fs[4] == p.ciphertext;
  }

  /** The server's side succeeds exactly when the agreement and the encapsulation do and no
      public value is too long, and its secret comes from all of them. */
  lemma ServerCombineIff(c: Primitives, pair: KemPair, coins: bytes, share: KeyShare)
    ensures var agreed, sealed := c.agree(pair.ecdhe, share.ecdhePublic), c.encapsulate(share.mlkemPublic, coins);
            if agreed.Some? && sealed.Some? then
              var (mlkemSecret, ct) := sealed.value;
              var p := Publics(share.ecdhePublic, c.ecdhePublic(pair.ecdhe), share.mlkemPublic, ct);
              ServerCombine(c, pair, coins, share) ==
              (if Short(p) then Some((c.combinerHkdf(CombinerIkm(agreed.value, mlkemSecret, p)), ct)) else None)
            else ServerCombine(c, pair, coins, share) == None
  {
    var agreed, sealed := c.agree(pair.ecdhe, share.ecdhePublic), c.encapsulate(share.mlkemPublic, coins);
    if agreed.Some? && sealed.Some? {
      FitIffShort(Publics(share.ecdhePublic, c.ecdhePublic(pair.ecdhe), share.mlkemPublic, sealed.value.1));
    }
  }

  /** So does the client's, with the decapsulation. */
  lemma ClientCombineIff(c: Primitives, pair: KemPair, serverEcdhe: bytes, ct: bytes)
    ensures var agreed, undone := c.agree(pair.ecdhe, serverEcdhe), c.decapsulate(pair.mlkem, ct);
            var p := Publics(c.ecdhePublic(pair.ecdhe), serverEcdhe, c.mlkemPublic(pair.mlkem), ct);
            ClientCombine(c, pair, serverEcdhe, ct) ==
            if agreed.Some? && undone.Some? && Short(p)
            then Some(c.combinerHkdf(CombinerIkm(agreed.value, undone.value, p))) else None
  {
    FitIffShort(Publics(c.ecdhePublic(pair.ecdhe), serverEcdhe, c.mlkemPublic(pair.mlkem), ct));
  }

  /** X25519 and ML-KEM-768 secrets are 32 bytes long. */
  ghost predicate FixedSize(c: Primitives) {
    && (forall a, b :: c.agree(a, b).Some? ==> |c.agree(a, b).value| == 32)
    && (forall p, coins :: c.encapsulate(p, coins).Some? ==> |c.encapsulate(p, coins).value.0| == 32)
    && (forall k, ct :: c.decapsulate(k, ct).Some? ==> |c.decapsulate(k, ct).value| == 32)
  }

  ghost predicate CombinerCollision(c: Primitives, i: Inputs, j: Inputs) {
    var x, y := CombinerIkm(i.ecdhe, i.mlkem, i.publics), CombinerIkm(j.ecdhe, j.mlkem, j.publics);
    x != y && c.combinerHkdf(x) == c.combinerHkdf(y)
  }

  /** Equal combined secrets come from equal component secrets and equal public values,
      or else the combiner has collided. */
  lemma SecretDeterminesInputs(c: Primitives, i: Inputs, j: Inputs)
    requires |i.ecdhe| == |i.mlkem| == |j.ecdhe| == |j.mlkem| == 32
    requires Combined(c, i.ecdhe, i.mlkem, i.publics).Some?
    requires Combined(c, i.ecdhe, i.mlkem, i.publics) == Combined(c, j.ecdhe, j.mlkem, j.publics)
    ensures i == j || CombinerCollision(c, i, j)
  {
    if CombinerIkm(i.ecdhe, i.mlkem, i.publics) == CombinerIkm(j.ecdhe, j.mlkem, j.publics) {
      CombinerIkmInjective(i.ecdhe, i.mlkem, i.publics, j.ecdhe, j.mlkem, j.publics);
    }
  }

  /** Whenever the server's side succeeds on an honest client share, the client's
      side succeeds on the answer and gets the same secret. */
  lemma SecretsAgree(c: Primitives, client: KemPair, server: KemPair, coins: bytes)
    requires Lawful(c)
    requires ServerCombine(c, server, coins, PublicKeyShare(c, client)).Some?
    ensures var (secret, ct) := ServerCombine(c, server, coins, PublicKeyShare(c, client)).value;
            ClientCombine(c, client, c.ecdhePublic(server.ecdhe), ct) == Some(secret)
  {
    assert c.agree(server.ecdhe, c.ecdhePublic(client.ecdhe)) == c.agree(client.ecdhe, c.ecdhePublic(server.ecdhe));
  }
}
