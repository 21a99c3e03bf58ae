/** What the handshake hashes: the canonical, length-prefixed transcript, the client
    binding that is its first half, and the report data of quotes. */
module Transcript {
  import opened Bytes

  datatype CipherSuite =
    | X25519MlKem768Aes256GcmSha384
    | P384MlKem1024Aes256GcmSha384
    | X25519Aes256GcmSha384
    | P256Aes256GcmSha256
    | X25519ChaCha20Poly1305Sha256

  function SuiteId(s: CipherSuite): nat {
    match s
    case X25519MlKem768Aes256GcmSha384 => 0x0001
    case P384MlKem1024Aes256GcmSha384 => 0x0002
    case X25519Aes256GcmSha384 => 0x0101
    case P256Aes256GcmSha256 => 0x0102
    case X25519ChaCha20Poly1305Sha256 => 0x0103
  }

  datatype ProtocolVersion = V1 | V2

  function VersionId(v: ProtocolVersion): byte {
    match v
    case V1 => 1
    case V2 => 2
  }

  /** Everything one side believes about the handshake. */
  datatype View = View(
    clientRandom: bytes,
    challenge: bytes,
    clientEcdhe: bytes,
    clientMlkem: bytes,
    serverRandom: bytes,
    serverEcdhe: bytes,
    ciphertext: bytes,
    serverMlkem: bytes,
    suite: CipherSuite,
    version: ProtocolVersion)

  function ClientFields(v: View): seq<bytes> {
    [v.clientRandom, v.challenge, v.clientEcdhe, v.clientMlkem]
  }

  function ServerFields(v: View): seq<bytes> {
    [v.serverRandom, v.serverEcdhe, v.ciphertext, v.serverMlkem]
  }

  function Trailer(v: View): bytes {
    BigEndian(SuiteId(v.suite), 2) + [VersionId(v.version)]
  }

  /** On the wire: two bytes for the suite, the hybrid ones starting with 0, and one for
      the version. */
  lemma TrailerBytes(v: View)
    ensures |Trailer(v)| == 3
    ensures Trailer(v)[0] == if v.suite in {X25519MlKem768Aes256GcmSha384, P384MlKem1024Aes256GcmSha384} then 0 else 1
    ensures Trailer(v)[1] == (match v.suite
                              case X25519MlKem768Aes256GcmSha384 => 1
                              case X25519Aes256GcmSha384 => 1
                              case X25519ChaCha20Poly1305Sha256 => 3
                              case _ => 2)
    ensures Trailer(v)[2] == if v.version == V1 then 1 else 2
  {
    BigEndianAt(SuiteId(v.suite), 2, 0);
    BigEndianAt(SuiteId(v.suite), 2, 1);
    assert Pow256(1) == 256;
  }

  /** The bytes fed to SHA-384 for the transcript hash. */
  function Preimage(v: View): bytes {
    Fields(8, ClientFields(v) + ServerFields(v)) + Trailer(v)
  }

  /** The bytes fed to SHA-384 for the binding in the client's quote. */
  function BindingPreimage(v: View): bytes {
    Fields(8, ClientFields(v))
  }

  ghost predicate Sized(v: View) {
    Fit(8, ClientFields(v) + ServerFields(v))
  }

  /** The transcript bytes determine every field, the suite and the version. */
  lemma PreimageInjective(v: View, w: View)
    requires Sized(v) && Sized(w)
    requires Preimage(v) == Preimage(w)
    ensures v == w
  {
    FieldsInjective(8, ClientFields(v) + ServerFields(v), Trailer(v), ClientFields(w) + ServerFields(w), Trailer(w));
    FieldListsInjective(v, w);
    SplitAt(BigEndian(SuiteId(v.suite), 2), [VersionId(v.version)],
            BigEndian(SuiteId(w.suite), 2), [VersionId(w.version)]);
    WidthSizes();
    BigEndianInjective(SuiteId(v.suite), SuiteId(w.suite), 2);
    assert [VersionId(v.version)][0] == [VersionId(w.version)][0];
  }

  lemma FieldListsInjective(v: View, w: View)
    requires ClientFields(v) + ServerFields(v) == ClientFields(w) + ServerFields(w)
    ensures v == w.(suite := v.suite, version := v.version)
  {
    var a, b := ClientFields(v) + ServerFields(v), ClientFields(w) + ServerFields(w);
    assert a[0] == b[0] && a[1] == b[1] && a[2] == b[2] && a[3] == b[3];
    assert a[4] == b[4] && a[5] == b[5] && a[6] == b[6] && a[7] == b[7];
  }

  /** The client binding determines everything the client contributed. */
  lemma BindingInjective(v: View, w: View)
    requires Fit(8, ClientFields(v)) && Fit(8, ClientFields(w))
    requires BindingPreimage(v) == BindingPreimage(w)
    ensures ClientFields(v) == ClientFields(w)
  {
    assert BindingPreimage(v) + [] == BindingPreimage(v) && BindingPreimage(w) + [] == BindingPreimage(w);
    FieldsInjective(8, ClientFields(v), [], ClientFields(w), []);
  }

  /** It is a proper prefix of the transcript, so the two hashes are never taken of
      the same bytes. */
  lemma BindingIsProperPrefix(v: View)
    ensures BindingPreimage(v) < Preimage(v)
  {
    FieldsAppend(8, ClientFields(v), ServerFields(v));
    ConcatAssoc(BindingPreimage(v), Fields(8, ServerFields(v)), Trailer(v));
    var rest := Fields(8, ServerFields(v)) + Trailer(v);
    assert |rest| >= 3 && Preimage(v) == BindingPreimage(v) + rest;
  }

  // ---- hashing step by step ----

  /** A hasher, as the bytes it has absorbed. */
  class Hasher {
    var absorbed: bytes

    constructor ()
      ensures absorbed == []
    {
      absorbed := [];
    }

    method Update(data: bytes)
      modifies this
      ensures absorbed == old(absorbed) + data
    {
      absorbed := absorbed + data;
    }

    /** The pair of updates by which every field is hashed: its length, then itself.
        `fs` are the fields hashed before. */
    method UpdateField(data: bytes, ghost fs: seq<bytes>)
      requires absorbed == Fields(8, fs)
      modifies this
      ensures absorbed == Fields(8, fs + [data])
    {
      Update(BigEndian(|data|, 8));
      Update(data);
      FieldsSnoc(8, fs, data);
      ConcatAssoc(Fields(8, fs), BigEndian(|data|, 8), data);
    }
  }

  // ---- report data ----

  const SERVER_PREFIX: bytes := Ascii("openhttpa hs server")
  const CLIENT_PREFIX: bytes := Ascii("openhttpa hs client")

  /** Quotes of the two roles are never made over the same bytes, whatever hashes
      they carry. */
  lemma RolesSeparated(serverHash: bytes, clientHash: bytes)
    ensures SERVER_PREFIX + serverHash != CLIENT_PREFIX + clientHash
  {
    assert (SERVER_PREFIX + serverHash)[13] == 's' as int;
    assert (CLIENT_PREFIX + clientHash)[13] == 'c' as int;
  }
}
