/** The bit ring behind the anti-replay window: W words of 64 bits, in which nonce
    n lives at word `n % W`, bit `(n / W) % 64`. */
module ReplayRing {
  import opened Arithmetic

  function Slot(n: nat, w: nat): (s: nat)
    requires w > 0
    ensures s < w
  {
    n % w
  }

  function Bit(n: nat, w: nat): (b: nat)
    requires w > 0
    ensures b < 64
  {
    n / w % 64
  }

  function Mask(b: nat): bv64
    requires b < 64
  {
    1 as bv64 << (b as bv6)
  }

  predicate TestBit(word: bv64, b: nat)
    requires b < 64
  {
    word & Mask(b) != 0
  }

  function WithBit(word: bv64, b: nat): bv64
    requires b < 64
  {
    word | Mask(b)
  }

  function WithoutBit(word: bv64, b: nat): bv64
    requires b < 64
  {
    word & !Mask(b)
  }

  /** Is the bit of nonce n set? */
  predicate Seen(window: seq<bv64>, n: nat)
    requires |window| > 0
  {
    TestBit(window[Slot(n, |window|)], Bit(n, |window|))
  }

  function SetBit(window: seq<bv64>, n: nat): (r: seq<bv64>)
    requires |window| > 0
    ensures |r| == |window|
  {
    var s := Slot(n, |window|);
    window[s := WithBit(window[s], Bit(n, |window|))]
  }

  function ClearBit(window: seq<bv64>, n: nat): (r: seq<bv64>)
    requires |window| > 0
    ensures |r| == |window|
  {
    var s := Slot(n, |window|);
    window[s := WithoutBit(window[s], Bit(n, |window|))]
  }

  /** The place of a nonce in the ring: there are 64 * W of them. */
  function Place(n: nat, w: nat): (p: nat)
    requires w > 0
  {
    n % (64 * w)
  }

  // ---- arithmetic of places ----

  lemma RemainderUnique(n: nat, d: nat, q: nat, r: nat)
    requires r < d && n == d * q + r
    ensures n % d == r
  {
    DivisionUnique(d, n / d, n % d, q, r);
  }

  lemma Regroup(w: nat, q: nat, b: nat, r: nat)
    ensures w * (64 * q + b) + r == (64 * w) * q + (w * b + r)
  {
    assert w * (64 * q) == (64 * w) * q;
  }

  lemma PlaceIsSlotAndBit(n: nat, w: nat)
    requires w > 0
    ensures Place(n, w) == w * Bit(n, w) + Slot(n, w)
  {
    var t := n / w;
    var q, b, r := t / 64, t % 64, n % w;
    MulAtMost(w, b, 63);
    Regroup(w, q, b, r);
    assert t == 64 * q + b;
    RemainderUnique(n, 64 * w, q, w * b + r);
  }

  lemma MulAtMost(w: nat, b: nat, c: nat)
    requires b <= c
    ensures 0 <= w * b <= w * c
  {
  }

  /** Two nonces share a bit exactly when they agree modulo 64 * W. */
  lemma SamePlace(m: nat, n: nat, w: nat)
    requires w > 0
    ensures Place(m, w) == Place(n, w) <==> Slot(m, w) == Slot(n, w) && Bit(m, w) == Bit(n, w)
  {
    PlaceIsSlotAndBit(m, w);
    PlaceIsSlotAndBit(n, w);
    if Place(m, w) == Place(n, w) {
      DivisionUnique(w, Bit(m, w), Slot(m, w), Bit(n, w), Slot(n, w));
    }
  }

  /** Places are distinct on any 64 * W consecutive nonces. */
  lemma PlacesDistinct(m: nat, n: nat, w: nat)
    requires w > 0
    requires m <= n && n - m < 64 * w
    requires Place(m, w) == Place(n, w)
    ensures m == n
  {
    var d := 64 * w;
    assert n - m == d * (n / d - m / d);
    MulAtLeast(d, n / d - m / d);
  }

  // ---- words ----

  lemma IndexAsBits(b: nat)
    requires b < 64
    ensures (b as bv6) as int == b
  {
  }

  lemma ShiftsDisjoint(s: bv6, t: bv6)
    ensures 1 as bv64 << s != 0
    ensures s != t ==> (1 as bv64 << s) & (1 as bv64 << t) == 0
  {
  }

  lemma MasksDisjoint(b: nat, c: nat)
    requires b < 64 && c < 64
    ensures Mask(b) != 0
    ensures b != c ==> Mask(b) & Mask(c) == 0
  {
    IndexAsBits(b);
    IndexAsBits(c);
    ShiftsDisjoint(b as bv6, c as bv6);
  }

  lemma SameMask(word: bv64, m: bv64)
    ensures (word | m) & m == m
    ensures (word & !m) & m == 0
  {
  }

  lemma OtherMask(word: bv64, m: bv64, k: bv64)
    requires m & k == 0
    ensures (word | m) & k == word & k
    ensures (word & !m) & k == word & k
  {
  }

  lemma MaskEffect(word: bv64, b: nat, c: nat, m: bv64, k: bv64)
    requires b < 64 && c < 64
    requires m == Mask(b) && k == Mask(c)
    ensures k != 0
    ensures (word | m) & k == if b == c then k else word & k
    ensures (word & !m) & k == if b == c then 0 else word & k
  {
    MasksDisjoint(c, b);
    if b == c {
      SameMask(word, m);
    } else {
      OtherMask(word, m, k);
    }
  }

  lemma WordEffect(word: bv64, b: nat, c: nat)
    requires b < 64 && c < 64
    ensures TestBit(WithBit(word, b), c) == (b == c || TestBit(word, c))
    ensures TestBit(WithoutBit(word, b), c) == (b != c && TestBit(word, c))
  {
    MaskEffect(word, b, c, Mask(b), Mask(c));
  }

  lemma UpdateAt(window: seq<bv64>, s: nat, t: nat, word: bv64)
    requires s < |window| && t < |window|
    ensures window[s := word][t] == if s == t then word else window[t]
  {
  }

  /** Setting the bit of m changes what the ring says about exactly the nonces
      that share m's place. */
  lemma SetBitEffect(window: seq<bv64>, m: nat, n: nat)
    requires |window| > 0
    ensures Seen(SetBit(window, m), n) <==> Seen(window, n) || Place(m, |window|) == Place(n, |window|)
  {
    var w := |window|;
    SamePlace(m, n, w);
    UpdateAt(window, Slot(m, w), Slot(n, w), WithBit(window[Slot(m, w)], Bit(m, w)));
    WordEffect(window[Slot(n, w)], Bit(m, w), Bit(n, w));
  }

  /** And so does clearing it. */
  lemma ClearBitEffect(window: seq<bv64>, m: nat, n: nat)
    requires |window| > 0
    ensures Seen(ClearBit(window, m), n) <==> Seen(window, n) && Place(m, |window|) != Place(n, |window|)
  {
    var w := |window|;
    SamePlace(m, n, w);
    UpdateAt(window, Slot(m, w), Slot(n, w), WithoutBit(window[Slot(m, w)], Bit(m, w)));
    WordEffect(window[Slot(n, w)], Bit(m, w), Bit(n, w));
  }

  lemma EmptyUnseen(window: seq<bv64>, n: nat)
    requires |window| > 0
    requires forall i :: 0 <= i < |window| ==> window[i] == 0
    ensures !Seen(window, n)
  {
    ZeroWord(Mask(Bit(n, |window|)));
  }

  lemma ZeroWord(m: bv64)
    ensures 0 & m == 0
  {
  }
}
