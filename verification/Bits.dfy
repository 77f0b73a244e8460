/** Bytes, powers of two and LSB-first bit strings, the currency of a GIF code stream. */
module Bits {
  type byte = x: int | 0 <= x < 256

  function Pow2(n: nat): (p: nat)
    ensures p > 0
  {
    if n == 0 then 1 else 2 * Pow2(n - 1)
  }

  lemma {:induction false} Pow2Monotone(a: nat, b: nat)
    requires a <= b
    ensures Pow2(a) <= Pow2(b)
    ensures a < b ==> 2 * Pow2(a) <= Pow2(b)
    decreases b
  {
    if a < b { Pow2Monotone(a, b - 1); }
  }

  /** The number an LSB-first bit string denotes. */
  function Val(bits: seq<bool>): (v: nat)
    ensures v < Pow2(|bits|)
  {
    if bits == [] then 0 else (if bits[0] then 1 else 0) + 2 * Val(bits[1..])
  }

  /** The `n` low bits of `v`, least significant first. */
  function ToBits(v: nat, n: nat): (bits: seq<bool>)
    ensures |bits| == n
  {
    if n == 0 then [] else [v % 2 == 1] + ToBits(v / 2, n - 1)
  }

  lemma {:induction false} ValToBits(v: nat, n: nat)
    requires v < Pow2(n)
    ensures Val(ToBits(v, n)) == v
  {
    if n > 0 {
      ValToBits(v / 2, n - 1);
      assert ToBits(v, n)[1..] == ToBits(v / 2, n - 1);
    }
  }

  /** Appending above the top bit is what `buf |= b << count` does to a buffer of `count` bits. */
  lemma {:induction false} ValConcat(a: seq<bool>, b: seq<bool>)
    ensures Val(a + b) == Val(a) + Pow2(|a|) * Val(b)
  {
    if a == [] {
      assert a + b == b;
    } else {
      ValConcat(a[1..], b);
      assert (a + b)[1..] == a[1..] + b;
      DoubleProduct(Pow2(|a| - 1), Val(b));
    }
  }

  lemma DoubleProduct(p: nat, v: nat)
    ensures 2 * (p * v) == (2 * p) * v == p * (2 * v)
  {
  }

  /** Masking takes the low bits and shifting drops them. */
  lemma ValSplit(bits: seq<bool>, w: nat)
    requires w <= |bits|
    ensures Val(bits) % Pow2(w) == Val(bits[..w])
    ensures Val(bits) / Pow2(w) == Val(bits[w..])
  {
    assert bits == bits[..w] + bits[w..];
    ValConcat(bits[..w], bits[w..]);
    DivMod(Val(bits), Pow2(w), Val(bits[w..]), Val(bits[..w]));
  }

  lemma DivMod(v: int, d: int, q: int, r: int)
    requires 0 <= r < d && v == d * q + r
    ensures v / d == q && v % d == r
  {
    var k := v / d - q;
    assert d * k == r - v % d by {
      assert v == d * (v / d) + v % d;
      assert d * k == d * (v / d) - d * q;
    }
    ScaledGap(d, k);
  }

  lemma ScaledGap(d: int, k: int)
    requires d > 0
    ensures k >= 1 ==> d * k >= d
    ensures k <= -1 ==> d * k <= -d
  {
    if k >= 1 { assert d * (k - 1) >= 0; }
    if k <= -1 { assert d * (-1 - k) >= 0; }
  }

  function ByteBits(b: byte): (bits: seq<bool>)
    ensures |bits| == 8
  {
    ToBits(b, 8)
  }

  /** All bits of a byte string, first byte first, each byte LSB-first. */
  function BitsOf(s: seq<byte>): (bits: seq<bool>)
    ensures |bits| == 8 * |s|
  {
    if s == [] then [] else ByteBits(s[0]) + BitsOf(s[1..])
  }

  lemma ByteVal(b: byte)
    ensures Val(ByteBits(b)) == b
  {
    assert Pow2(8) == 256;
    ValToBits(b, 8);
  }

  /** `buf |= b << count` on a buffer of `count` bits: the byte's bits go on top. */
  lemma ValAppend(bits: seq<bool>, b: byte)
    ensures Val(bits + ByteBits(b)) == Val(bits) + b * Pow2(|bits|)
  {
    ByteVal(b);
    ValConcat(bits, ByteBits(b));
    hide *;
    Commutes(Pow2(|bits|), b);
  }

  lemma Commutes(a: int, b: int)
    ensures a * b == b * a
  {
  }

  /** Bits packed into bytes LSB-first, the last byte filled up with zero bits. */
  function Pack(bits: seq<bool>): (s: seq<byte>)
    ensures |s| == (|bits| + 7) / 8
    decreases |bits|
  {
    if bits == [] then []
    else
      var chunk := if |bits| < 8 then bits else bits[..8];
      assert Pow2(8) == 256;
      Pow2Monotone(|chunk|, 8);
      [Val(chunk)] + Pack(bits[|chunk|..])
  }

  lemma {:induction false} ToBitsVal(bits: seq<bool>, n: nat)
    requires |bits| <= n
    ensures bits <= ToBits(Val(bits), n)
  {
    if bits != [] {
      ToBitsVal(bits[1..], n - 1);
      assert Val(bits) / 2 == Val(bits[1..]);
    }
  }

  /** Packing loses no bit: unpacking gives the bits back, followed only by padding. */
  lemma {:induction false} PackUnpack(bits: seq<bool>)
    ensures bits <= BitsOf(Pack(bits))
    decreases |bits|
  {
    if bits != [] {
      var chunk := if |bits| < 8 then bits else bits[..8];
      ToBitsVal(chunk, 8);
      PackUnpack(bits[|chunk|..]);
      var s := Pack(bits);
      assert s[1..] == Pack(bits[|chunk|..]);
      assert bits == chunk + bits[|chunk|..];
      if |bits| >= 8 { assert chunk == ByteBits(s[0]); }
    }
  }

  lemma Grouped<T>(a: seq<T>, b: seq<T>, c: seq<T>)
    ensures a + b + c == a + (b + c)
  {
  }

  lemma SubSlice<T>(s: seq<T>, a: nat, b: nat, i: nat, j: nat)
    requires a <= b <= |s| && i <= j <= b - a
    ensures s[a..b][i..j] == s[a + i..a + j]
  {
    var (lhs, rhs) := (s[a..b][i..j], s[a + i..a + j]);
    assert |lhs| == |rhs|;
    forall k | 0 <= k < |lhs| ensures lhs[k] == rhs[k] {
      assert lhs[k] == s[a..b][i + k] == s[a + i + k];
    }
  }
}
