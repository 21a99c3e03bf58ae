/** The in-memory key-value store of the memory fabric: per-entry sealing,
    version-vector dominance, and eviction of the smallest key. Names are the bytes
    of the UTF-8 strings; HKDF and AES-GCM are free constructors. */
module KvStore {
  import opened Bytes
  import opened Outcomes
  import opened Convergence

  const CAPACITY: nat := 1000

  // ---- byte-lexicographic order, as `String` compares ----

  predicate LexLe(a: bytes, b: bytes) {
    |a| == 0 || (|b| > 0 && (a[0] < b[0] || (a[0] == b[0] && LexLe(a[1..], b[1..]))))
  }

  /** The bytes agree before place i, and the first string has the smaller one there. */
  ghost predicate SmallerAt(a: bytes, b: bytes, i: nat) {
    i < |a| && i < |b| && a[..i] == b[..i] && a[i] < b[i]
  }

  /** A prefix, or a smaller byte at the first difference. */
  lemma {:induction false} LexIff(a: bytes, b: bytes)
    ensures LexLe(a, b) <==> a <= b || exists i: nat :: SmallerAt(a, b, i)
  {
    if |a| > 0 && |b| > 0 {
      if a[0] < b[0] {
        assert SmallerAt(a, b, 0);
      } else if a[0] == b[0] {
        LexIff(a[1..], b[1..]);
        LexTail(a, b);
      } else {
        assert forall i: nat :: i > 0 && i < |a| && i < |b| ==> a[..i][0] != b[..i][0];
      }
    }
  }

  lemma LexTail(a: bytes, b: bytes)
    requires |a| > 0 && |b| > 0 && a[0] == b[0]
    ensures a <= b <==> a[1..] <= b[1..]
    ensures (exists i: nat :: SmallerAt(a, b, i)) <==> exists i: nat :: SmallerAt(a[1..], b[1..], i)
  {
    assert a == [a[0]] + a[1..] && b == [a[0]] + b[1..];
    if i: nat :| SmallerAt(a, b, i) {
      assert a[1..][..i - 1] == a[..i][1..] == b[..i][1..] == b[1..][..i - 1];
      assert SmallerAt(a[1..], b[1..], i - 1);
    }
    if i: nat :| SmallerAt(a[1..], b[1..], i) {
      assert a[..i + 1] == [a[0]] + a[1..][..i] && b[..i + 1] == [b[0]] + b[1..][..i];
      assert SmallerAt(a, b, i + 1);
    }
  }

  lemma {:induction false} LexTotal(a: bytes, b: bytes)
    ensures LexLe(a, b) || LexLe(b, a)
    ensures LexLe(a, b) && LexLe(b, a) ==> a == b
  {
    if |a| > 0 && |b| > 0 && a[0] == b[0] {
      LexTotal(a[1..], b[1..]);
      assert a == [a[0]] + a[1..] && b == [b[0]] + b[1..];
    }
  }

  lemma {:induction false} LexTransitive(a: bytes, b: bytes, c: bytes)
    requires LexLe(a, b) && LexLe(b, c)
    ensures LexLe(a, c)
  {
    if |a| > 0 && a[0] == b[0] == c[0] {
      LexTransitive(a[1..], b[1..], c[1..]);
    }
  }

  ghost predicate IsSmallest(keys: set<bytes>, least: bytes) {
    least in keys && forall k :: k in keys ==> LexLe(least, k)
  }

  lemma {:induction false} SmallestExists(keys: set<bytes>) returns (least: bytes)
    requires keys != {}
    ensures IsSmallest(keys, least)
    decreases |keys|
  {
    least :| least in keys;
    LexTotal(least, least);
    var rest := keys - {least};
    if rest != {} {
      var other := SmallestExists(rest);
      LexTotal(least, other);
      if LexLe(least, other) {
        forall k | k in keys
          ensures LexLe(least, k)
        {
          if k != least {
            LexTransitive(least, other, k);
          }
        }
      } else {
        least := other;
      }
    }
  }

  /** Eviction is deterministic: there is only one smallest key. */
  lemma SmallestUnique(keys: set<bytes>, a: bytes, b: bytes)
    requires IsSmallest(keys, a) && IsSmallest(keys, b)
    ensures a == b
  {
    LexTotal(a, b);
  }

  // ---- sealing ----

  /** "sdmf_entry_v1" */
  const INFO_PREFIX: bytes := [115, 100, 109, 102, 95, 101, 110, 116, 114, 121, 95, 118, 49]

  /** The HKDF info string of an entry; the lengths are cast to 32 bits. */
  function EntryInfo(ns: bytes, key: bytes): bytes {
    INFO_PREFIX + Field(4, ns) + Field(4, key)
  }

  /** HKDF-Expand(HKDF-Extract(salt, master), info). */
  datatype EntryKey = EntryKey(master: bytes, salt: bytes, info: bytes)

  /** AES-256-GCM under an entry key. */
  datatype Ciphertext = Gcm(key: EntryKey, nonce: bytes, plaintext: bytes)

  datatype SealedData = SealedData(ciphertext: Ciphertext, nonce: bytes)

  function EncryptEntry(master: bytes, ns: bytes, key: bytes, data: bytes, nonce: bytes): SealedData {
    SealedData(Gcm(EntryKey(master, nonce, EntryInfo(ns, key)), nonce, data), nonce)
  }

  function DecryptEntry(master: bytes, ns: bytes, key: bytes, sealed: SealedData): Option<bytes> {
    var entryKey := EntryKey(master, sealed.nonce, EntryInfo(ns, key));
    var Gcm(sealingKey, nonce, plaintext) := sealed.ciphertext;
    if sealingKey == entryKey && nonce == sealed.nonce then Some(plaintext) else None
  }

  /** The info string determines namespace and key, as long as their lengths fit in
      32 bits. */
  lemma EntryInfoInjective(ns: bytes, key: bytes, ns': bytes, key': bytes)
    requires |ns| < U32_SIZE && |key| < U32_SIZE && |ns'| < U32_SIZE && |key'| < U32_SIZE
    requires EntryInfo(ns, key) == EntryInfo(ns', key')
    ensures ns == ns' && key == key'
  {
    WidthSizes();
    ConcatAssoc(INFO_PREFIX, Field(4, ns), Field(4, key));
    ConcatAssoc(INFO_PREFIX, Field(4, ns'), Field(4, key'));
    SplitAt(INFO_PREFIX, Field(4, ns) + Field(4, key), INFO_PREFIX, Field(4, ns') + Field(4, key'));
    FieldInjective(4, ns, Field(4, key), ns', Field(4, key'));
    assert Field(4, key) + [] == Field(4, key) && Field(4, key') + [] == Field(4, key');
    FieldInjective(4, key, [], key', []);
  }

  /** Beyond that the cast to 32 bits makes different entries share an info string. */
  lemma EntryInfoWraps()
    ensures var zeros: bytes := seq(U32_SIZE, _ => 0);
            EntryInfo(zeros, []) == EntryInfo([], zeros) && zeros != []
  {
    var zeros: bytes := seq(U32_SIZE, _ => 0);
    var none: bytes := seq(4, _ => 0);
    WidthSizes();
    LowBytes(1, 4);
    LowBytes(0, 4);
    assert Field(4, zeros) == none + zeros;
    assert Field(4, []) == none + [] == none;
    assert none + zeros == zeros + none;
  }

  /** A sealed entry opens only under the master key, namespace and key it was
      sealed for, and then to the data that went in. */
  lemma OpensOnlyInPlace(master: bytes, ns: bytes, key: bytes, data: bytes, nonce: bytes,
                         master': bytes, ns': bytes, key': bytes)
    requires |ns| < U32_SIZE && |key| < U32_SIZE && |ns'| < U32_SIZE && |key'| < U32_SIZE
    ensures DecryptEntry(master', ns', key', EncryptEntry(master, ns, key, data, nonce)) ==
            if master' == master && ns' == ns && key' == key then Some(data) else None
  {
    if EntryInfo(ns', key') == EntryInfo(ns, key) {
      EntryInfoInjective(ns', key', ns, key);
    }
  }

  // ---- the store ----

  datatype FabricEntry = FabricEntry(version: VersionVector, data: SealedData)

  type Namespace = map<bytes, FabricEntry>

  /** Key derivation by the enclave works or fails. */
  datatype Tee = Working(master: bytes) | Failing

  /** Room for one more entry: a full namespace loses its smallest key. */
  ghost predicate MakesRoom(before: Namespace, room: Namespace) {
    if |before| < CAPACITY then room == before
    else exists least :: IsSmallest(before.Keys, least) && room == before - {least}
  }

  /** One `put` into a namespace. `entry` is the sealed entry, or None if the key
      derivation or the encryption fails. */
  ghost predicate PutStep(before: Namespace, key: bytes, version: VersionVector, entry: Option<FabricEntry>,
                          after: Namespace, ok: bool)
  {
    if key in before && Dominates(before[key].version, version) then !ok && after == before
    else
      && ok == entry.Some?
      && exists room :: MakesRoom(before, room) && after == if ok then room[key := entry.value] else room
  }

  function NamespaceOf(namespaces: map<bytes, Namespace>, ns: bytes): Namespace {
    if ns in namespaces then namespaces[ns] else map[]
  }

  function Seal(tee: Tee, ns: bytes, key: bytes, data: bytes, version: VersionVector, nonce: Option<bytes>):
    Option<FabricEntry>
  {
    if tee.Working? && nonce.Some? then Some(FabricEntry(version, EncryptEntry(tee.master, ns, key, data, nonce.value)))
    else None
  }

  /** The eviction of `put`. */
  method EvictIfFull(ns: Namespace) returns (room: Namespace)
    ensures MakesRoom(ns, room)
  {
    room := ns;
    if |ns| >= CAPACITY {
      ghost var least := SmallestExists(ns.Keys);
      assert forall k :: k in ns.Keys ==> LexLe(least, k);
      var keyToRemove :| keyToRemove in ns.Keys && forall k :: k in ns.Keys ==> LexLe(keyToRemove, k);
      assert IsSmallest(ns.Keys, keyToRemove);
      room := ns - {keyToRemove};
    }
  }

  /** The body of `put` on the map of one namespace. */
  method PutInto(ns: Namespace, namespace: bytes, key: bytes, data: bytes, version: VersionVector, tee: Tee,
                 nonce: Option<bytes>)
    returns (ok: bool, after: Namespace)
    ensures PutStep(ns, key, version, Seal(tee, namespace, key, data, version, nonce), after, ok)
  {
    if key in ns {
      var dominates := CheckDominates(ns[key].version, version);
      if dominates {
        return false, ns;
      }
    }
    var room := EvictIfFull(ns);
    if tee.Failing? || nonce.None? {
      return false, room;
    }
    var sealed := EncryptEntry(tee.master, namespace, key, data, nonce.value);
    return true, room[key := FabricEntry(version, sealed)];
  }

  class KvStore {
    var namespaces: map<bytes, Namespace>

    constructor ()
      ensures namespaces == map[]
    {
      namespaces := map[];
    }

    /** No namespace holds more than 1000 entries. */
    ghost predicate Bounded()
      reads this
    {
      forall ns :: ns in namespaces ==> |namespaces[ns]| <= CAPACITY
    }

    /** The random nonce is None when the encryption fails. */
    method Put(namespace: bytes, key: bytes, data: bytes, version: VersionVector, tee: Tee, nonce: Option<bytes>)
      returns (ok: bool)
      modifies this
      ensures PutStep(old(NamespaceOf(namespaces, namespace)), key, version,
                      Seal(tee, namespace, key, data, version, nonce), NamespaceOf(namespaces, namespace), ok)
      ensures namespaces == old(namespaces)[namespace := NamespaceOf(namespaces, namespace)]
      ensures var before := old(NamespaceOf(namespaces, namespace));
              var newer := key !in before || Newer(version, before[key].version);
              && (ok <==> newer && tee.Working? && nonce.Some?)
              && (ok ==> Lookup(NamespaceOf(namespaces, namespace), namespace, key, tee) == Some(data))
              && (!newer ==> NamespaceOf(namespaces, namespace) == before)
      ensures old(Bounded()) ==> Bounded()
    {
      var ns := NamespaceOf(namespaces, namespace);
      ghost var before := ns;
      ok, ns := PutInto(ns, namespace, key, data, version, tee, nonce);
      namespaces := namespaces[namespace := ns];
      PutIff(before, namespace, key, data, version, tee, nonce, ns, ok);
      PutKeepsBound(before, key, version, Seal(tee, namespace, key, data, version, nonce), ns, ok);
    }

    method Get(namespace: bytes, key: bytes, tee: Tee) returns (r: Option<bytes>)
      ensures r == Lookup(NamespaceOf(namespaces, namespace), namespace, key, tee)
    {
      if namespace !in namespaces || key !in namespaces[namespace] {
        return None;
      }
      match tee {
        case Failing => return None;
        case Working(master) => return DecryptEntry(master, namespace, key, namespaces[namespace][key].data);
      }
    }

    method Delete(namespace: bytes, key: bytes)
      modifies this
      ensures namespaces.Keys == old(namespaces).Keys
      ensures forall ns :: ns in namespaces ==>
                namespaces[ns] == if ns == namespace then old(namespaces)[ns] - {key} else old(namespaces)[ns]
      ensures old(Bounded()) ==> Bounded()
    {
      if namespace in namespaces {
        var ns := namespaces[namespace] - {key};
        assert ns.Keys == namespaces[namespace].Keys - {key};
        namespaces := namespaces[namespace := ns];
      }
    }
  }

  function Lookup(ns: Namespace, namespace: bytes, key: bytes, tee: Tee): Option<bytes> {
    if key in ns && tee.Working? then DecryptEntry(tee.master, namespace, key, ns[key].data) else None
  }

  lemma RoomIsMade(before: Namespace, room: Namespace)
    requires MakesRoom(before, room) && |before| <= CAPACITY
    ensures |room| < CAPACITY
  {
    if |before| >= CAPACITY {
      var least :| IsSmallest(before.Keys, least) && room == before - {least};
      assert room.Keys == before.Keys - {least};
    }
  }

  lemma InsertSize(room: Namespace, key: bytes, entry: FabricEntry)
    ensures |room[key := entry]| <= |room| + 1
  {
    assert room[key := entry].Keys == room.Keys + {key};
  }

  lemma PutKeepsBound(before: Namespace, key: bytes, version: VersionVector, entry: Option<FabricEntry>,
                      after: Namespace, ok: bool)
    requires PutStep(before, key, version, entry, after, ok)
    ensures |before| <= CAPACITY ==> |after| <= CAPACITY
  {
    if |before| <= CAPACITY && !(key in before && Dominates(before[key].version, version)) {
      var room :| MakesRoom(before, room) && after == if ok then room[key := entry.value] else room;
      RoomIsMade(before, room);
      if ok {
        InsertSize(room, key, entry.value);
      }
    }
  }

  /** A put touches its own key; the only other key it can lose is the smallest, and
      only when the namespace is full. That holds for a put that fails after the
      dominance check as well. */
  lemma PutFrame(before: Namespace, key: bytes, version: VersionVector, entry: Option<FabricEntry>,
                 after: Namespace, ok: bool, other: bytes)
    requires PutStep(before, key, version, entry, after, ok) && other != key
    ensures other in after ==> other in before && after[other] == before[other]
    ensures other in before && other !in after ==> |before| >= CAPACITY && IsSmallest(before.Keys, other)
  {
  }

  /** A refused put on a namespace with room changes nothing; it is refused exactly
      when the stored version dominates or sealing failed. */
  lemma RefusedPut(before: Namespace, key: bytes, version: VersionVector, entry: Option<FabricEntry>,
                   after: Namespace, ok: bool)
    requires PutStep(before, key, version, entry, after, ok)
    ensures !ok <==> (key in before && Dominates(before[key].version, version)) || entry.None?
    ensures !ok && |before| < CAPACITY ==> after == before
  {
  }

  /** With sealing working, an update that gives some node a larger count than the stored
      version does is accepted, and a get returns its data; one that does not is refused
      and changes nothing. */
  lemma PutIff(before: Namespace, namespace: bytes, key: bytes, data: bytes, version: VersionVector, tee: Tee,
               nonce: Option<bytes>, after: Namespace, ok: bool)
    requires PutStep(before, key, version, Seal(tee, namespace, key, data, version, nonce), after, ok)
    ensures var newer := key !in before || Newer(version, before[key].version);
            && (ok <==> newer && tee.Working? && nonce.Some?)
            && (ok ==> Lookup(after, namespace, key, tee) == Some(data) && after[key].version == version)
            && (!newer ==> after == before)
  {
    if key in before {
      DominatesIff(before[key].version, version);
    }
  }

  /** A get right after an accepted put returns the data. */
  lemma GetAfterPut(before: Namespace, tee: Tee, namespace: bytes, key: bytes, data: bytes, version: VersionVector,
                    nonce: Option<bytes>, after: Namespace)
    requires PutStep(before, key, version, Seal(tee, namespace, key, data, version, nonce), after, true)
    ensures Lookup(after, namespace, key, tee) == Some(data)
  {
  }

  // ---- replication ----

  /** The update an entry was made from. */
  function Stored(ns: Namespace, key: bytes): Option<Update> {
    if key in ns then Some(Update(ns[key].version, ns[key].data.ciphertext.plaintext)) else None
  }

  /** As long as there is room and sealing works, a put is a delivery. */
  lemma PutDelivers(before: Namespace, master: bytes, namespace: bytes, key: bytes, u: Update, nonce: bytes,
                    after: Namespace, ok: bool)
    requires |before| < CAPACITY
    requires PutStep(before, key, u.version, Seal(Working(master), namespace, key, u.data, u.version, Some(nonce)),
                     after, ok)
    ensures Stored(after, key) == Deliver(Stored(before, key), u)
    ensures after.Keys == before.Keys + {key}
  {
  }

  /** A new store that is sent the updates of one key, in any order and with any
      repetitions, holds what plain delivery leaves. */
  method Replicate(namespace: bytes, key: bytes, order: seq<Update>, master: bytes, nonces: seq<bytes>)
    returns (store: KvStore)
    requires |nonces| == |order|
    ensures Stored(NamespaceOf(store.namespaces, namespace), key) == DeliverAll(None, order)
  {
    store := new KvStore();
    for i := 0 to |order|
      invariant fresh(store)
      invariant NamespaceOf(store.namespaces, namespace).Keys <= {key}
      invariant Stored(NamespaceOf(store.namespaces, namespace), key) == DeliverAll(None, order[..i])
    {
      ghost var before := NamespaceOf(store.namespaces, namespace);
      AtMostOne(before.Keys, key);
      var u := order[i];
      var ok := store.Put(namespace, key, u.data, u.version, Working(master), Some(nonces[i]));
      PutDelivers(before, master, namespace, key, u, nonces[i], NamespaceOf(store.namespaces, namespace), ok);
      DeliverAllAppend(None, order[..i], u);
      assert order[..i + 1] == order[..i] + [u];
    }
    assert order[..|order|] == order;
  }

  lemma AtMostOne(keys: set<bytes>, key: bytes)
    requires keys <= {key}
    ensures |keys| <= 1
  {
    assert keys == {} || keys == {key};
  }
}
