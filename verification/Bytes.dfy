/** Byte strings, big-endian integers and length-prefixed fields, as every wire
    format and every hash preimage of the protocol uses them. */
module Bytes {
  import opened Arithmetic

  type byte = x: int | 0 <= x < 256

  type bytes = seq<byte>

  /** The number of values that fit in k bytes. */
  function Pow256(k: nat): (p: nat)
    ensures p >= 1
  {
    if k == 0 then 1 else 256 * Pow256(k - 1)
  }

  const U16_SIZE: nat := 0x1_0000
  const U32_SIZE: nat := 0x1_0000_0000
  const U64_SIZE: nat := 0x1_0000_0000_0000_0000
  const U64_MAX: nat := 0xFFFF_FFFF_FFFF_FFFF

  lemma WidthSizes()
    ensures Pow256(2) == U16_SIZE
    ensures Pow256(4) == U32_SIZE
    ensures Pow256(8) == U64_SIZE
  {
    assert Pow256(2) == 256 * Pow256(1) == 65536;
    assert Pow256(4) == 65536 * Pow256(2);
    assert Pow256(6) == 65536 * Pow256(4);
    assert Pow256(8) == 65536 * Pow256(6);
  }

  /** `to_be_bytes` of the low k bytes of n. */
  function BigEndian(n: nat, k: nat): (s: bytes)
    ensures |s| == k
  {
    if k == 0 then [] else BigEndian(n / 256, k - 1) + [n % 256]
  }

  /** `from_be_bytes`. */
  function FromBigEndian(s: bytes): (n: nat)
  {
    if |s| == 0 then 0 else FromBigEndian(s[..|s| - 1]) * 256 + s[|s| - 1]
  }

  lemma {:induction false} FromBigEndianBound(s: bytes)
    ensures FromBigEndian(s) < Pow256(|s|)
  {
    if |s| > 0 {
      FromBigEndianBound(s[..|s| - 1]);
    }
  }

  /** Decoding gives back the integer the encoder was given, truncated to k bytes. */
  lemma {:induction false} DecodeEncode(n: nat, k: nat)
    ensures n < Pow256(k) ==> FromBigEndian(BigEndian(n, k)) == n
  {
    if k > 0 {
      DecodeEncode(n / 256, k - 1);
      var s := BigEndian(n, k);
      assert s[..|s| - 1] == BigEndian(n / 256, k - 1);
    }
  }

  lemma {:induction false} EncodeDecode(s: bytes)
    ensures BigEndian(FromBigEndian(s), |s|) == s
  {
    if |s| > 0 {
      var front := s[..|s| - 1];
      EncodeDecode(front);
      assert FromBigEndian(s) / 256 == FromBigEndian(front);
      assert FromBigEndian(s) % 256 == s[|s| - 1];
      assert s == front + [s[|s| - 1]];
    }
  }

  lemma {:induction false} DivPow256(n: nat, k: nat)
    ensures n / 256 / Pow256(k) == n / Pow256(k + 1)
  {
    var h, p := n / 256, Pow256(k);
    var q, r := h / p, h % p;
    assert h == p * q + r;
    assert Pow256(k + 1) * q == 256 * (p * q);
    QuotientIs(n, Pow256(k + 1), q, 256 * r + n % 256);
  }

  /** The most significant byte comes first. */
  lemma {:induction false} BigEndianAt(n: nat, k: nat, i: nat)
    requires i < k
    ensures BigEndian(n, k)[i] == n / Pow256(k - 1 - i) % 256
  {
    if i < k - 1 {
      BigEndianAt(n / 256, k - 1, i);
      DivPow256(n, k - 2 - i);
    }
  }

  lemma BigEndianInjective(m: nat, n: nat, k: nat)
    requires m < Pow256(k) && n < Pow256(k)
    requires BigEndian(m, k) == BigEndian(n, k)
    ensures m == n
  {
    DecodeEncode(m, k);
    DecodeEncode(n, k);
  }

  /** The low k bytes of a multiple of 256^k are zero. */
  lemma {:induction false} LowBytes(q: nat, k: nat)
    ensures BigEndian(Pow256(k) * q, k) == seq(k, _ => 0)
  {
    if k > 0 {
      assert Pow256(k) * q == 256 * (Pow256(k - 1) * q);
      LowBytes(q, k - 1);
    }
  }

  lemma SplitAt(a: bytes, b: bytes, c: bytes, d: bytes)
    requires |a| == |c|
    requires a + b == c + d
    ensures a == c && b == d
  {
    assert a == (a + b)[..|a|] == (c + d)[..|c|] == c;
    assert b == (a + b)[|a|..] == (c + d)[|c|..] == d;
  }

  /** A field preceded by its length in `width` big-endian bytes. */
  function Field(width: nat, data: bytes): bytes
  {
    BigEndian(|data|, width) + data
  }

  /** A length-prefixed field can be read off the front of any byte string in
      only one way. */
  lemma FieldInjective(width: nat, a: bytes, rest: bytes, b: bytes, rest': bytes)
    requires |a| < Pow256(width) && |b| < Pow256(width)
    requires Field(width, a) + rest == Field(width, b) + rest'
    ensures a == b && rest == rest'
  {
    var la, lb := BigEndian(|a|, width), BigEndian(|b|, width);
    assert Field(width, a) + rest == la + (a + rest);
    assert Field(width, b) + rest' == lb + (b + rest');
    SplitAt(la, a + rest, lb, b + rest');
    BigEndianInjective(|a|, |b|, width);
    SplitAt(a, rest, b, rest');
  }

  /** Several length-prefixed fields in a row. */
  function Fields(width: nat, fs: seq<bytes>): bytes
  {
    if |fs| == 0 then [] else Field(width, fs[0]) + Fields(width, fs[1..])
  }

  predicate Fit(width: nat, fs: seq<bytes>)
  {
    forall i :: 0 <= i < |fs| ==> |fs[i]| < Pow256(width)
  }

  /** A fixed number of length-prefixed fields, followed by anything, determines
      the fields and what follows them. */
  lemma {:induction false} FieldsInjective(width: nat, fs: seq<bytes>, rest: bytes, gs: seq<bytes>, rest': bytes)
    requires |fs| == |gs| && Fit(width, fs) && Fit(width, gs)
    requires Fields(width, fs) + rest == Fields(width, gs) + rest'
    ensures fs == gs && rest == rest'
  {
    if |fs| == 0 {
      assert Fields(width, fs) + rest == rest;
      assert Fields(width, gs) + rest' == rest';
    } else {
      var f, g := Fields(width, fs[1..]) + rest, Fields(width, gs[1..]) + rest';
      assert Fields(width, fs) + rest == Field(width, fs[0]) + f;
      assert Fields(width, gs) + rest' == Field(width, gs[0]) + g;
      FieldInjective(width, fs[0], f, gs[0], g);
      FieldsInjective(width, fs[1..], rest, gs[1..], rest');
      assert fs == [fs[0]] + fs[1..] && gs == [gs[0]] + gs[1..];
    }
  }

  lemma {:induction false} FieldsAppend(width: nat, fs: seq<bytes>, gs: seq<bytes>)
    ensures Fields(width, fs + gs) == Fields(width, fs) + Fields(width, gs)
  {
    if |fs| == 0 {
      assert fs + gs == gs;
    } else {
      var first, rest, last := Field(width, fs[0]), Fields(width, fs[1..]), Fields(width, gs);
      assert (fs + gs)[0] == fs[0] && (fs + gs)[1..] == fs[1..] + gs;
      FieldsAppend(width, fs[1..], gs);
      ConcatAssoc(first, rest, last);
    }
  }

  lemma ConcatAssoc(a: bytes, b: bytes, c: bytes)
    ensures (a + b) + c == a + (b + c)
  {
  }

  lemma {:induction false} FieldsSnoc(width: nat, fs: seq<bytes>, f: bytes)
    ensures Fields(width, fs + [f]) == Fields(width, fs) + Field(width, f)
  {
    FieldsAppend(width, fs, [f]);
    assert Fields(width, [f]) == Field(width, f) + Fields(width, [f][1..]) == Field(width, f);
  }

  // ---- byte-string literals ----

  /** ASCII text without a NUL character. */
  predicate IsAscii(s: string) {
    forall i :: 0 <= i < |s| ==> 0 < s[i] as int < 128
  }

  function Ascii(s: string): (b: bytes)
    requires IsAscii(s)
    ensures |b| == |s|
    ensures forall i :: 0 <= i < |s| ==> b[i] == s[i] as int
  {
    seq(|s|, i requires 0 <= i < |s| => s[i] as int)
  }
}
