/** The assumptions of the stream theorems can be met: for every stream there is a
    channel that is ideal for it. */
module IdealChannel {
  import opened AeadNonce
  import opened Bytes
  import opened Frames
  import opened Outcomes
  import opened StreamChannel

  // ---- 48-byte numbers ----

  function Count(i: nat): (b: bytes)
    ensures |b| == 48
  {
    BigEndian(i, 48)
  }

  function Uncount(b: bytes): nat {
    FromBigEndian(b)
  }

  lemma {:induction false} WideEnough(i: nat, k: nat)
    requires i < U64_SIZE && k >= 8
    ensures i < Pow256(k)
  {
    if k == 8 {
      WidthSizes();
    } else {
      WideEnough(i, k - 1);
    }
  }

  lemma CountTrip(i: nat)
    requires i < U64_SIZE
    ensures Uncount(Count(i)) == i
  {
    WideEnough(i, |Count(i)|);
    DecodeEncode(i, |Count(i)|);
  }

  lemma UncountTrip(b: bytes)
    requires |b| == 48
    ensures Count(Uncount(b)) == b
  {
    EncodeDecode(b);
  }

  lemma CountInjective(i: nat, j: nat)
    requires i < U64_SIZE && j < U64_SIZE && Count(i) == Count(j)
    ensures i == j
  {
    CountTrip(i);
    CountTrip(j);
  }

  lemma CountZero()
    ensures Count(0) == ZeroHash()
  {
    LowBytes(0, |ZeroHash()|);
  }

  // ---- a channel that counts ----

  /** The hash takes the running number on by one. */
  function CountingHash(x: bytes): (h: bytes)
    ensures |h| == 48
  {
    if |x| < 48 then ZeroHash() else Count(Uncount(x[..48]) + 1)
  }

  /** What the key is used for: the chunks of one stream, and single messages, such as
      the header of a streaming request, as pairs of nonce and text. */
  datatype Use = Use(counters: seq<nat>, ps: seq<bytes>, messages: set<(bytes, bytes)>) {
    ghost predicate Valid() {
      |counters| == |ps| < U64_SIZE && forall i :: 0 <= i < |counters| ==> counters[i] < U64_SIZE
    }
  }

  /** Opens exactly the chunks, each in its own step, and the messages, which are sealed
      under the session part of the additional data alone. */
  function CountingOpen(iv: Iv, aad: bytes, u: Use, n: bytes, a: bytes, c: bytes): Option<bytes>
    requires |u.counters| == |u.ps|
  {
    if a == aad then if (n, c) in u.messages then Some(c) else None
    else if !(|a| == |aad| + 48 && aad <= a) then None
    else
      var i := Uncount(a[|aad|..]);
      if i < |u.ps| && n == Nonce(iv, u.counters[i]) && c == u.ps[i] then Some(u.ps[i]) else None
  }

  ghost predicate Counts(ch: Channel) {
    forall x :: ch.hash(x) == CountingHash(x)
  }

  ghost predicate Plain(ch: Channel) {
    forall n, a, p :: ch.seal(n, a, p) == p
  }

  ghost predicate OpensInPlace(ch: Channel, u: Use)
    requires |u.counters| == |u.ps|
  {
    forall n, a, c :: ch.open(n, a, c) == CountingOpen(ch.iv, ch.aad, u, n, a, c)
  }

  lemma {:induction false} SealsNothing(ch: Channel, counters: seq<nat>, ps: seq<bytes>)
    requires |counters| == |ps| && Plain(ch)
    ensures SealAll(ch, counters, ps) == ps
  {
    if |ps| > 0 {
      SealsNothing(ch, counters[..|ps| - 1], ps[..|ps| - 1]);
    }
  }

  lemma {:induction false} ChainCounts(ch: Channel, cts: seq<bytes>)
    requires Counts(ch) && |cts| < U64_SIZE
    ensures Chain(ch, cts) == Count(|cts|)
  {
    if |cts| == 0 {
      CountZero();
    } else {
      var k := |cts| - 1;
      ChainCounts(ch, cts[..k]);
      CountTrip(k);
      assert (Count(k) + cts[k])[..48] == Count(k);
    }
  }

  lemma HashCounts(ch: Channel, cts: seq<bytes>, i: nat)
    requires Counts(ch) && |cts| < U64_SIZE && i < |cts|
    ensures ch.hash(HashInput(ch, cts, i)) == Count(i + 1)
  {
    ChainStep(ch, cts, i);
    ChainCounts(ch, cts[..i + 1]);
  }

  lemma CountingChainSound(ch: Channel, cts: seq<bytes>)
    requires Counts(ch) && |cts| < U64_SIZE
    ensures ChainSound(ch, cts)
  {
    CountZero();
    forall i: nat | i < |cts|
      ensures ch.hash(HashInput(ch, cts, i)) != ZeroHash()
    {
      HashCounts(ch, cts, i);
      if Count(i + 1) == Count(0) {
        CountInjective(i + 1, 0);
      }
    }
    forall i: nat, j: nat | i < j < |cts|
      ensures ch.hash(HashInput(ch, cts, i)) != ch.hash(HashInput(ch, cts, j))
    {
      HashCounts(ch, cts, i);
      HashCounts(ch, cts, j);
      if Count(i + 1) == Count(j + 1) {
        CountInjective(i + 1, j + 1);
      }
    }
  }

  lemma CountingAuthentic(ch: Channel, u: Use, n: bytes, a: bytes, c: bytes) returns (i: nat)
    requires u.Valid() && Counts(ch) && Plain(ch) && OpensInPlace(ch, u)
    requires |a| == |ch.aad| + 48 && ch.open(n, a, c).Some?
    ensures i < |u.ps| && IsSealed(ch, u.counters, u.ps, i, n, a, c) && ch.open(n, a, c).value == u.ps[i]
  {
    i := Uncount(a[|ch.aad|..]);
    SealsNothing(ch, u.counters, u.ps);
    ChainCounts(ch, u.ps[..i]);
    UncountTrip(a[|ch.aad|..]);
    assert a == ch.aad + a[|ch.aad|..];
  }

  lemma CountingOpens(ch: Channel, u: Use, i: nat)
    requires u.Valid() && Counts(ch) && OpensInPlace(ch, u) && i < |u.ps|
    ensures ch.open(Nonce(ch.iv, u.counters[i]), ch.aad + Chain(ch, u.ps[..i]), u.ps[i]) == Some(u.ps[i])
  {
    ChainCounts(ch, u.ps[..i]);
    CountTrip(i);
    assert (ch.aad + Count(i))[|ch.aad|..] == Count(i);
  }

  lemma CountingIsIdeal(ch: Channel, u: Use)
    requires u.Valid() && Counts(ch) && Plain(ch) && OpensInPlace(ch, u)
    ensures Ideal(ch, u.counters, u.ps) && Sent(ch, u.counters, u.ps) == FramesOf(u.counters, u.ps)
    ensures forall n, x :: (n, x) in u.messages ==> ch.seal(n, ch.aad, x) == x && ch.open(n, ch.aad, x) == Some(x)
  {
    SealsNothing(ch, u.counters, u.ps);
    CountingChainSound(ch, u.ps);
    forall n, a, c | |a| == |ch.aad| + 48 && ch.open(n, a, c).Some?
      ensures exists i ::
                && 0 <= i < |u.ps| && IsSealed(ch, u.counters, u.ps, i, n, a, c)
                && ch.open(n, a, c).value == u.ps[i]
    {
      var i := CountingAuthentic(ch, u, n, a, c);
    }
    forall i: nat | i < |u.ps|
      ensures ch.open(Nonce(ch.iv, u.counters[i]), ch.aad + Chain(ch, u.ps[..i]), u.ps[i]) == Some(u.ps[i])
    {
      CountingOpens(ch, u, i);
    }
  }

  /** For every stream, and whatever single messages the key seals beside it, there is a
      channel that is ideal for the stream and on which the messages open too. */
  lemma IdealChannelExists(iv: Iv, aad: bytes, u: Use) returns (ch: Channel)
    requires u.Valid()
    ensures ch.iv == iv && ch.aad == aad && Ideal(ch, u.counters, u.ps)
    ensures Sent(ch, u.counters, u.ps) == FramesOf(u.counters, u.ps)
    ensures forall n, x :: (n, x) in u.messages ==> ch.seal(n, aad, x) == x && ch.open(n, aad, x) == Some(x)
  {
    ch := Channel(iv, aad, CountingHash, (n, a, p) => p, (n, a, c) => CountingOpen(iv, aad, u, n, a, c));
    CountingIsIdeal(ch, u);
  }
}
