/** The session key schedule: HKDF info strings for every key slot, after a full
    handshake and for a resumed session, and the keys derived with them. */
module KeySchedule {
  import opened Bytes

  /** HKDF over SHA-384, sections 2.2 and 2.3 of RFC 5869, as functions. */
  datatype Hkdf = Hkdf(extract: (bytes, bytes) -> bytes, expand: (bytes, bytes, nat) -> bytes)

  datatype Slot =
    | MasterSecret | ResumptionMaster
    | ClientWriteKey | ServerWriteKey
    | ClientWriteIv | ServerWriteIv
    | ClientMacKey | ServerMacKey

  predicate IsLabel(l: string) {
    |l| > 0 && IsAscii(l) && l[0] != '_'
  }

  function Label(slot: Slot): (l: string)
    ensures IsLabel(l)
  {
    match slot
    case MasterSecret => "master secret"
    case ResumptionMaster => "res master"
    case ServerWriteKey => ServerLabel(slot)
    case ServerWriteIv => ServerLabel(slot)
    case ServerMacKey => ServerLabel(slot)
    case _ => ClientLabel(slot)
  }

  function ClientLabel(slot: Slot): (l: string)
    ensures IsLabel(l)
  {
    match slot
    case ClientWriteKey => "client write key"
    case ClientWriteIv => "client write iv"
    case _ => "client mac key"
  }

  function ServerLabel(slot: Slot): (l: string)
    ensures IsLabel(l)
  {
    match slot
    case ServerWriteKey => "server write key"
    case ServerWriteIv => "server write iv"
    case _ => "server mac key"
  }

  function OutputLength(slot: Slot): nat {
    match slot
    case MasterSecret => 48
    case ResumptionMaster => 48
    case ClientWriteIv => 12
    case ServerWriteIv => 12
    case _ => 32
  }

  /** What a key is bound to: the transcript hash of a full handshake, or the salt
      of a resumed session. */
  datatype Binding = OneRtt(transcriptHash: bytes) | ZeroRtt(salt: bytes)

  function Prefix(b: Binding): string {
    match b
    case OneRtt(_) => "openhttpa_v2"
    case ZeroRtt(_) => "openhttpa_v2_0rtt"
  }

  function Bound(b: Binding): bytes {
    match b
    case OneRtt(h) => h
    case ZeroRtt(s) => s
  }

  /** Label, zero byte, binding. */
  function Suffix(b: Binding, slot: Slot): bytes {
    Ascii(Label(slot)) + [0] + Bound(b)
  }

  function Info(b: Binding, slot: Slot): bytes {
    Ascii(Prefix(b)) + Suffix(b, slot)
  }

  /** `make_info`, appending to a vector. */
  method MakeInfo(b: Binding, name: string) returns (v: bytes)
    requires IsAscii(name)
    ensures v == Ascii(Prefix(b)) + (Ascii(name) + [0] + Bound(b))
  {
    v := Ascii(Prefix(b));
    v := v + Ascii(name);
    v := v + [0];
    v := v + Bound(b);
    ConcatAssoc(Ascii(Prefix(b)), Ascii(name) + [0], Bound(b));
    ConcatAssoc(Ascii(Prefix(b)), Ascii(name), [0]);
  }

  // ---- separation of the info strings ----

  lemma AsciiInjective(s: string, t: string)
    requires IsAscii(s) && IsAscii(t) && Ascii(s) == Ascii(t)
    ensures s == t
  {
    forall i | 0 <= i < |s|
      ensures s[i] == t[i]
    {
      assert Ascii(s)[i] == Ascii(t)[i];
    }
  }

  lemma LabelInjective(s: Slot, t: Slot)
    requires Label(s) == Label(t)
    ensures s == t
  {
    assert |Label(s)| == |Label(t)| && Label(s)[0] == Label(t)[0];
  }

  /** A text without zero bytes can be read off in front of a zero byte. */
  lemma ZeroTerminated(a: bytes, rest: bytes, b: bytes, rest': bytes)
    requires 0 !in a && 0 !in b
    requires a + [0] + rest == b + [0] + rest'
    ensures a == b && rest == rest'
  {
    var x, y := a + [0] + rest, b + [0] + rest';
    assert x[|a|] == 0 && y[|b|] == 0;
    assert |a| == |b|;
    ConcatAssoc(a, [0], rest);
    ConcatAssoc(b, [0], rest');
    SplitAt(a, [0] + rest, b, [0] + rest');
    SplitAt([0], rest, [0], rest');
  }

  lemma LabelHasNoZero(slot: Slot)
    ensures 0 !in Ascii(Label(slot))
  {
    assert forall i :: 0 <= i < |Label(slot)| ==> Ascii(Label(slot))[i] > 0;
  }

  lemma SuffixInjective(b: Binding, slot: Slot, b': Binding, slot': Slot)
    requires Suffix(b, slot) == Suffix(b', slot')
    ensures Label(slot) == Label(slot') && Bound(b) == Bound(b')
  {
    LabelHasNoZero(slot);
    LabelHasNoZero(slot');
    ZeroTerminated(Ascii(Label(slot)), Bound(b), Ascii(Label(slot')), Bound(b'));
    AsciiInjective(Label(slot), Label(slot'));
  }

  /** No two key slots, of one session or of two, of a full or of a resumed
      handshake, ever use the same info string. */
  lemma InfoInjective(b: Binding, slot: Slot, b': Binding, slot': Slot)
    requires Info(b, slot) == Info(b', slot')
    ensures b == b' && slot == slot'
  {
    SameSuffix(b, slot, b', slot');
    SuffixInjective(b, slot, b', slot');
    LabelInjective(slot, slot');
  }

  lemma SameSuffix(b: Binding, slot: Slot, b': Binding, slot': Slot)
    requires Info(b, slot) == Info(b', slot')
    ensures (b.OneRtt? <==> b'.OneRtt?) && Suffix(b, slot) == Suffix(b', slot')
  {
    SamePrefix(b, slot, b', slot');
    assert Prefix(b) == Prefix(b');
    SplitAt(Ascii(Prefix(b)), Suffix(b, slot), Ascii(Prefix(b')), Suffix(b', slot'));
  }

  /** A full handshake and a resumed one part ways right after "openhttpa_v2". */
  lemma SamePrefix(b: Binding, slot: Slot, b': Binding, slot': Slot)
    requires Info(b, slot) == Info(b', slot')
    ensures b.OneRtt? <==> b'.OneRtt?
  {
    TwelfthByte(b, slot);
    TwelfthByte(b', slot');
  }

  lemma TwelfthByte(b: Binding, slot: Slot)
    ensures |Info(b, slot)| > 12
    ensures Info(b, slot)[12] == 95 <==> b.ZeroRtt?
  {
    if b.ZeroRtt? {
      InZeroPrefix(b, slot);
    } else {
      AfterOnePrefix(b, slot);
    }
  }

  lemma InZeroPrefix(b: Binding, slot: Slot)
    requires b.ZeroRtt?
    ensures |Info(b, slot)| > 12 && Info(b, slot)[12] == 95
  {
    assert "openhttpa_v2_0rtt"[12] as int == 95;
    ByteAt(Ascii(Prefix(b)), Suffix(b, slot), 12);
  }

  lemma AfterOnePrefix(b: Binding, slot: Slot)
    requires b.OneRtt?
    ensures |Info(b, slot)| > 12 && Info(b, slot)[12] != 95
  {
    FirstOfSuffix(b, slot);
    ByteAt(Ascii(Prefix(b)), Suffix(b, slot), 12);
  }

  lemma FirstOfSuffix(b: Binding, slot: Slot)
    ensures |Suffix(b, slot)| > 0 && Suffix(b, slot)[0] != 95
  {
    ConcatAssoc(Ascii(Label(slot)), [0], Bound(b));
    ByteAt(Ascii(Label(slot)), [0] + Bound(b), 0);
    assert Label(slot)[0] as int != '_' as int == 95;
  }

  lemma ByteAt(p: bytes, q: bytes, i: nat)
    requires i < |p| + |q|
    ensures (p + q)[i] == if i < |p| then p[i] else q[i - |p|]
  {
  }

  // ---- the derived keys ----

  datatype SessionKeys = SessionKeys(
    masterSecret: bytes,
    resumptionMasterSecret: bytes,
    clientWriteKey: bytes,
    serverWriteKey: bytes,
    clientWriteIv: bytes,
    serverWriteIv: bytes,
    clientMacKey: bytes,
    serverMacKey: bytes,
    transcriptHash: bytes)

  function ZeroSalt(): bytes {
    seq(48, _ => 0)
  }

  /** The key of one slot. */
  function Key(hkdf: Hkdf, secret: bytes, b: Binding, slot: Slot): bytes {
    hkdf.expand(hkdf.extract(Salt(b), secret), Info(b, slot), OutputLength(slot))
  }

  function Salt(b: Binding): bytes {
    match b
    case OneRtt(_) => ZeroSalt()
    case ZeroRtt(s) => s
  }

  /** Under one salt, extraction takes two secrets to the same key. Under different salts
      that would be no collision: HMAC pads its key with zeros. */
  ghost predicate ExtractCollision(hkdf: Hkdf, salt: bytes, secret: bytes, secret': bytes) {
    secret != secret' && hkdf.extract(salt, secret) == hkdf.extract(salt, secret')
  }

  ghost predicate ExpandCollision(hkdf: Hkdf, prk: bytes, info: bytes, len: nat, prk': bytes, info': bytes, len': nat) {
    (prk, info, len) != (prk', info', len') && hkdf.expand(prk, info, len) == hkdf.expand(prk', info', len')
  }

  /** HKDF takes the inputs of these two derivations to the same output. */
  ghost predicate HkdfCollision(hkdf: Hkdf, secret: bytes, b: Binding, slot: Slot,
                                secret': bytes, b': Binding, slot': Slot)
  {
    || (b == b' && slot == slot' && ExtractCollision(hkdf, Salt(b), secret, secret'))
    || ExpandCollision(hkdf, hkdf.extract(Salt(b), secret), Info(b, slot), OutputLength(slot),
                       hkdf.extract(Salt(b'), secret'), Info(b', slot'), OutputLength(slot'))
  }

  /** Equal keys come from the same secret, the same handshake and the same slot, or
      else HKDF has collided on the way to them. */
  lemma KeyDeterminesOrigin(hkdf: Hkdf, secret: bytes, b: Binding, slot: Slot, secret': bytes, b': Binding, slot': Slot)
    requires Key(hkdf, secret, b, slot) == Key(hkdf, secret', b', slot')
    ensures (secret, b, slot) == (secret', b', slot') || HkdfCollision(hkdf, secret, b, slot, secret', b', slot')
  {
    if Info(b, slot) == Info(b', slot') {
      InfoInjective(b, slot, b', slot');
    }
  }

  /** `SessionKeys::derive`. */
  function Derive(hkdf: Hkdf, secret: bytes, transcriptHash: bytes): SessionKeys {
    var b := OneRtt(transcriptHash);
    SessionKeys(
      Key(hkdf, secret, b, MasterSecret), Key(hkdf, secret, b, ResumptionMaster),
      Key(hkdf, secret, b, ClientWriteKey), Key(hkdf, secret, b, ServerWriteKey),
      Key(hkdf, secret, b, ClientWriteIv), Key(hkdf, secret, b, ServerWriteIv),
      Key(hkdf, secret, b, ClientMacKey), Key(hkdf, secret, b, ServerMacKey),
      transcriptHash)
  }

  /** The two master secrets, in `derive` and in `derive_0rtt`. */
  method ExpandSecrets(hkdf: Hkdf, prk: bytes, b: Binding) returns (master: bytes, resumption: bytes)
    ensures master == hkdf.expand(prk, Info(b, MasterSecret), OutputLength(MasterSecret))
    ensures resumption == hkdf.expand(prk, Info(b, ResumptionMaster), OutputLength(ResumptionMaster))
  {
    assert Label(MasterSecret) == "master secret" && Label(ResumptionMaster) == "res master";
    var info := MakeInfo(b, "master secret");
    master := hkdf.expand(prk, info, 48);
    info := MakeInfo(b, "res master");
    resumption := hkdf.expand(prk, info, 48);
  }

  /** The client's write key, IV and MAC key. */
  method ExpandClient(hkdf: Hkdf, prk: bytes, b: Binding) returns (key: bytes, iv: bytes, mac: bytes)
    ensures key == hkdf.expand(prk, Info(b, ClientWriteKey), OutputLength(ClientWriteKey))
    ensures iv == hkdf.expand(prk, Info(b, ClientWriteIv), OutputLength(ClientWriteIv))
    ensures mac == hkdf.expand(prk, Info(b, ClientMacKey), OutputLength(ClientMacKey))
  {
    assert Label(ClientWriteKey) == "client write key";
    assert Label(ClientWriteIv) == "client write iv";
    assert Label(ClientMacKey) == "client mac key";
    var info := MakeInfo(b, "client write key");
    key := hkdf.expand(prk, info, 32);
    info := MakeInfo(b, "client write iv");
    iv := hkdf.expand(prk, info, 12);
    info := MakeInfo(b, "client mac key");
    mac := hkdf.expand(prk, info, 32);
  }

  method ExpandServer(hkdf: Hkdf, prk: bytes, b: Binding) returns (key: bytes, iv: bytes, mac: bytes)
    ensures key == hkdf.expand(prk, Info(b, ServerWriteKey), OutputLength(ServerWriteKey))
    ensures iv == hkdf.expand(prk, Info(b, ServerWriteIv), OutputLength(ServerWriteIv))
    ensures mac == hkdf.expand(prk, Info(b, ServerMacKey), OutputLength(ServerMacKey))
  {
    assert Label(ServerWriteKey) == "server write key";
    assert Label(ServerWriteIv) == "server write iv";
    assert Label(ServerMacKey) == "server mac key";
    var info := MakeInfo(b, "server write key");
    key := hkdf.expand(prk, info, 32);
    info := MakeInfo(b, "server write iv");
    iv := hkdf.expand(prk, info, 12);
    info := MakeInfo(b, "server mac key");
    mac := hkdf.expand(prk, info, 32);
  }

  /** `SessionKeys::derive`, call by call. */
  method DeriveKeys(hkdf: Hkdf, secret: bytes, transcriptHash: bytes) returns (keys: SessionKeys)
    ensures keys == Derive(hkdf, secret, transcriptHash)
  {
    var zeros: bytes := seq(48, _ => 0);
    var prk := hkdf.extract(zeros, secret);
    assert zeros == ZeroSalt();
    var master, resumption := ExpandSecrets(hkdf, prk, OneRtt(transcriptHash));
    var clientKey, clientIv, clientMac := ExpandClient(hkdf, prk, OneRtt(transcriptHash));
    var serverKey, serverIv, serverMac := ExpandServer(hkdf, prk, OneRtt(transcriptHash));
    keys := SessionKeys(master, resumption, clientKey, serverKey, clientIv, serverIv, clientMac, serverMac,
                        transcriptHash);
  }

  /** `SessionKeys::derive_0rtt`, call by call: the salt is both extracted with and bound to;
      its SHA-384 stands in for the transcript hash. */
  method DeriveZeroRtt(hkdf: Hkdf, sha384: bytes -> bytes, secret: bytes, salt: bytes) returns (keys: SessionKeys)
    ensures var b := ZeroRtt(salt);
            keys == SessionKeys(
              Key(hkdf, secret, b, MasterSecret), Key(hkdf, secret, b, ResumptionMaster),
              Key(hkdf, secret, b, ClientWriteKey), Key(hkdf, secret, b, ServerWriteKey),
              Key(hkdf, secret, b, ClientWriteIv), Key(hkdf, secret, b, ServerWriteIv),
              Key(hkdf, secret, b, ClientMacKey), Key(hkdf, secret, b, ServerMacKey), sha384(salt))
  {
    var prk := hkdf.extract(salt, secret);
    var master, resumption := ExpandSecrets(hkdf, prk, ZeroRtt(salt));
    var clientKey, clientIv, clientMac := ExpandClient(hkdf, prk, ZeroRtt(salt));
    var serverKey, serverIv, serverMac := ExpandServer(hkdf, prk, ZeroRtt(salt));
    keys := SessionKeys(master, resumption, clientKey, serverKey, clientIv, serverIv, clientMac, serverMac,
                        sha384(salt));
  }
}
