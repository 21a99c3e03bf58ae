/** The AEAD nonce of section 5.3 of RFC 8446: the write IV with the 64-bit
    counter XORed, big-endian, into its last eight bytes. */
module AeadNonce {
  import opened Arithmetic
  import opened Bytes

  function Pow2(k: nat): (p: nat)
    ensures p >= 1
  {
    if k == 0 then 1 else 2 * Pow2(k - 1)
  }

  /** Exclusive or of the low k bits. */
  function XorBits(a: nat, b: nat, k: nat): (r: nat)
    ensures r < Pow2(k)
  {
    if k == 0 then 0 else (if a % 2 == b % 2 then 0 else 1) + 2 * XorBits(a / 2, b / 2, k - 1)
  }

  lemma LowBit(bit: nat, q: nat)
    requires bit < 2
    ensures (bit + 2 * q) % 2 == bit && (bit + 2 * q) / 2 == q
  {
  }

  lemma HalfFirst(x: nat, p: nat)
    requires p > 0
    ensures x / (2 * p) == x / 2 / p
  {
    var h := x / 2;
    var q, r := h / p, h % p;
    assert h == p * q + r;
    assert (2 * p) * q == 2 * (p * q);
    QuotientIs(x, 2 * p, q, 2 * r + x % 2);
  }

  /** Each of the k bits of the result is set exactly when the two operands differ there. */
  lemma {:induction false} XorBitsAt(a: nat, b: nat, k: nat, j: nat)
    requires j < k
    ensures XorBits(a, b, k) / Pow2(j) % 2 == 1 <==> a / Pow2(j) % 2 != b / Pow2(j) % 2
  {
    var rest := XorBits(a / 2, b / 2, k - 1);
    LowBit(if a % 2 == b % 2 then 0 else 1, rest);
    if j > 0 {
      XorBitsAt(a / 2, b / 2, k - 1, j - 1);
      HalfFirst(XorBits(a, b, k), Pow2(j - 1));
      HalfFirst(a, Pow2(j - 1));
      HalfFirst(b, Pow2(j - 1));
    }
  }

  lemma {:induction false} XorBitsZero(a: nat, k: nat)
    requires a < Pow2(k)
    ensures XorBits(a, 0, k) == a && XorBits(0, a, k) == a
  {
    if k > 0 {
      XorBitsZero(a / 2, k - 1);
    }
  }

  /** XORing with the same value twice changes nothing. */
  lemma {:induction false} XorBitsTwice(a: nat, b: nat, k: nat)
    requires b < Pow2(k)
    ensures XorBits(a, XorBits(a, b, k), k) == b
  {
    if k > 0 {
      XorBitsTwice(a / 2, b / 2, k - 1);
      LowBit(if a % 2 == b % 2 then 0 else 1, XorBits(a / 2, b / 2, k - 1));
    }
  }

  function Xor(a: byte, b: byte): byte
  {
    assert Pow2(8) == 256;
    XorBits(a, b, 8)
  }

  lemma XorZero(a: byte)
    ensures Xor(a, 0) == a && Xor(0, a) == a
  {
    assert Pow2(8) == 256;
    XorBitsZero(a, 8);
  }

  lemma XorTwice(a: byte, b: byte)
    ensures Xor(a, Xor(a, b)) == b
  {
    assert Pow2(8) == 256;
    XorBitsTwice(a, b, 8);
  }

  type Iv = s: bytes | |s| == 12 witness seq(12, _ => 0)

  function Nonce(iv: Iv, counter: nat): (n: Iv)
  {
    var c := BigEndian(counter, 8);
    seq(12, i requires 0 <= i < 12 => if i < 4 then iv[i] else Xor(iv[i], c[i - 4]))
  }

  /** The first four bytes are those of the IV, and each bit of the last eight is set exactly
      when the IV and the big-endian counter differ in it. */
  lemma NonceBits(iv: Iv, counter: nat, i: nat, j: nat)
    requires i < 12 && j < 8
    ensures i < 4 ==> Nonce(iv, counter)[i] == iv[i]
    ensures i >= 4 ==>
              (Nonce(iv, counter)[i] / Pow2(j) % 2 == 1 <==>
               iv[i] / Pow2(j) % 2 != BigEndian(counter, 8)[i - 4] / Pow2(j) % 2)
  {
    if i >= 4 {
      XorBitsAt(iv[i], BigEndian(counter, 8)[i - 4], 8, j);
    }
  }

  /** Counter 0 gives the IV itself. */
  lemma NonceOfZero(iv: Iv)
    ensures Nonce(iv, 0) == iv
  {
    LowBytes(0, 8);
    forall i | 4 <= i < 12
      ensures Nonce(iv, 0)[i] == iv[i]
    {
      assert BigEndian(Pow256(8) * 0, 8)[i - 4] == 0;
      XorZero(iv[i]);
    }
  }

  /** Under the zero IV the nonce is the counter, in twelve big-endian bytes. */
  lemma NonceUnderZero(counter: nat)
    ensures Nonce(seq(12, _ => 0), counter) == [0, 0, 0, 0] + BigEndian(counter, 8)
  {
    var zero: Iv, c := seq(12, _ => 0), BigEndian(counter, 8);
    forall i | 4 <= i < 12
      ensures Nonce(zero, counter)[i] == c[i - 4]
    {
      XorZero(c[i - 4]);
    }
    assert forall i :: 0 <= i < 12 ==> Nonce(zero, counter)[i] == ([0, 0, 0, 0] + c)[i];
  }

  /** `build_aead_nonce`, and the same loop in every sealing and opening closure. */
  method BuildAeadNonce(counter: nat, writeIv: Iv) returns (n: Iv)
    ensures n == Nonce(writeIv, counter)
  {
    var nonce := new byte[12](i requires 0 <= i < 12 => writeIv[i]);
    var counterBytes := BigEndian(counter, 8);
    for i := 0 to 8
      invariant forall j :: 0 <= j < 4 ==> nonce[j] == writeIv[j]
      invariant forall j :: 4 <= j < 4 + i ==> nonce[j] == Xor(writeIv[j], counterBytes[j - 4])
      invariant forall j :: 4 + i <= j < 12 ==> nonce[j] == writeIv[j]
    {
      nonce[4 + i] := Xor(nonce[4 + i], counterBytes[i]);
    }
    n := nonce[..];
  }

  /** Under one IV the nonce determines the counter. */
  lemma NonceInjective(iv: Iv, c: nat, d: nat)
    requires c < U64_SIZE && d < U64_SIZE
    requires Nonce(iv, c) == Nonce(iv, d)
    ensures c == d
  {
    var x, y := BigEndian(c, 8), BigEndian(d, 8);
    forall i | 0 <= i < 8
      ensures x[i] == y[i]
    {
      assert Nonce(iv, c)[4 + i] == Xor(iv[4 + i], x[i]);
      assert Nonce(iv, d)[4 + i] == Xor(iv[4 + i], y[i]);
      XorTwice(iv[4 + i], x[i]);
      XorTwice(iv[4 + i], y[i]);
    }
    assert x == y;
    WidthSizes();
    BigEndianInjective(c, d, 8);
  }
}
