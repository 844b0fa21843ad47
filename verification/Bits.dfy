/** Bit strings, least significant bit first, and the little-endian packing of codes into bytes. */
module Bits {
  import opened Basics

  /** The number whose binary digits, lowest first, are `s`. */
  function Val(s: seq<bool>): nat {
    if s == [] then 0 else (if s[0] then 1 else 0) + 2 * Val(s[1..])
  }

  /** The low `w` binary digits of `v`, lowest first. */
  function BitsOf(v: nat, w: nat): (s: seq<bool>)
    ensures |s| == w
    decreases w, v  // listing v keeps the verifier from unrolling every 8-bit group
  {
    if w == 0 then [] else [v % 2 == 1] + BitsOf(v / 2, w - 1)
  }

  /** The bit stream that a byte string carries. */
  function BytesBits(bs: seq<byte>): (s: seq<bool>)
    ensures |s| == 8 * |bs|
  {
    if bs == [] then [] else BytesBits(bs[..|bs| - 1]) + BitsOf(bs[|bs| - 1], 8)
  }

  function Zeros(n: nat): (s: seq<bool>)
    ensures |s| == n
    ensures forall i :: 0 <= i < n ==> !s[i]
  {
    seq(n, _ => false)
  }

  lemma {:induction false} Pow2Add(a: nat, b: nat)
    ensures Pow2(a + b) == Pow2(a) * Pow2(b)
  {
    if a > 0 {
      Pow2Add(a - 1, b);
      assert a + b - 1 == (a - 1) + b;
      assert Pow2(a + b) == 2 * Pow2(a + b - 1);
      assert 2 * (Pow2(a - 1) * Pow2(b)) == (2 * Pow2(a - 1)) * Pow2(b);
    }
  }

  lemma {:induction false} Pow2Mono(a: nat, b: nat)
    requires a <= b
    ensures Pow2(a) <= Pow2(b)
    decreases b
  {
    if a < b { Pow2Mono(a, b - 1); }
  }

  lemma Pow2Values()
    ensures Pow2(8) == 256 && Pow2(9) == 512 && Pow2(10) == 1024 && Pow2(11) == 2048
    ensures Pow2(12) == 4096 && Pow2(13) == 8192 && Pow2(14) == 16384
  {
    assert Pow2(4) == 16;
    assert Pow2(8) == 256;
    assert Pow2(12) == 4096;
  }

  lemma {:induction false} ValBound(s: seq<bool>)
    ensures Val(s) < Pow2(|s|)
  {
    if s != [] { ValBound(s[1..]); }
  }

  lemma {:induction false} ValOfBits(v: nat, w: nat)
    requires v < Pow2(w)
    ensures Val(BitsOf(v, w)) == v
    decreases w
  {
    if w > 0 {
      ValOfBits(v / 2, w - 1);
      assert BitsOf(v, w)[1..] == BitsOf(v / 2, w - 1);
    }
  }

  lemma {:induction false} BitsOfVal(s: seq<bool>)
    ensures BitsOf(Val(s), |s|) == s
  {
    if s != [] {
      BitsOfVal(s[1..]);
      assert s == [s[0]] + s[1..];
    }
  }

  lemma {:induction false} ValAppend(a: seq<bool>, b: seq<bool>)
    ensures Val(a + b) == Val(a) + Pow2(|a|) * Val(b)
  {
    if a == [] {
      assert a + b == b;
    } else {
      ValAppend(a[1..], b);
      assert (a + b)[1..] == a[1..] + b;
      DoubleProduct(Pow2(|a| - 1), Val(b));
    }
  }

  lemma DoubleProduct(p: int, v: int)
    ensures 2 * (p * v) == (2 * p) * v
  {
  }

  lemma {:induction false} ValZeros(n: nat)
    ensures Val(Zeros(n)) == 0
  {
    if n > 0 {
      ValZeros(n - 1);
      assert Zeros(n)[1..] == Zeros(n - 1);
    }
  }

  /** A code stacked above `n` pending bits: the concatenation is the sum with a shift. */
  lemma {:induction false} StackBits(low: nat, n: nat, high: nat, w: nat)
    requires low < Pow2(n) && high < Pow2(w)
    ensures low + Pow2(n) * high < Pow2(n + w)
    ensures BitsOf(low, n) + BitsOf(high, w) == BitsOf(low + Pow2(n) * high, n + w)
  {
    var s := BitsOf(low, n) + BitsOf(high, w);
    ValAppend(BitsOf(low, n), BitsOf(high, w));
    ValOfBits(low, n);
    ValOfBits(high, w);
    ValBound(s);
    BitsOfVal(s);
  }

  /** The converse: a number splits at any digit into quotient and remainder. */
  lemma {:induction false} SplitBits(v: nat, n: nat, w: nat, q: nat, r: nat)
    requires v < Pow2(n + w) && v == r + Pow2(n) * q && r < Pow2(n)
    ensures q < Pow2(w)
    ensures BitsOf(v, n + w) == BitsOf(r, n) + BitsOf(q, w)
  {
    Pow2Add(n, w);
    if q >= Pow2(w) {
      MulMono(Pow2(w), q, Pow2(n));
    }
    StackBits(r, n, q, w);
  }

  lemma DivModUnique(v: int, m: int, q: int, r: int)
    requires m > 0 && v == q * m + r && 0 <= r < m
    ensures v / m == q && v % m == r
  {
    var a, b := v / m, v % m;
    assert v == a * m + b && 0 <= b < m;
    assert (a - q) * m == r - b;
    if a - q >= 1 {
      MulMono(1, a - q, m);
    } else if a - q <= -1 {
      MulMono(a - q, -1, m);
    }
  }

  lemma MulMono(a: int, b: int, m: int)
    requires a <= b && m >= 0
    ensures a * m <= b * m
  {
  }

  lemma {:induction false} BytesBitsAppend(a: seq<byte>, b: seq<byte>)
    ensures BytesBits(a + b) == BytesBits(a) + BytesBits(b)
  {
    if b == [] {
      assert a + b == a;
    } else {
      var b0, last := b[..|b| - 1], b[|b| - 1];
      BytesBitsAppend(a, b0);
      assert (a + b)[..|a + b| - 1] == a + b0;
      AppendAssoc(BytesBits(a), BytesBits(b0), BitsOf(last, 8));
    }
  }

  lemma BytesBitsOne(b: byte)
    ensures BytesBits([b]) == BitsOf(b, 8)
  {
    assert [b][..0] == [];
  }

  lemma {:induction false} BytesBitsZeros(bs: seq<byte>)
    requires forall i :: 0 <= i < |bs| ==> bs[i] == 0
    ensures BytesBits(bs) == Zeros(8 * |bs|)
  {
    if bs != [] {
      BytesBitsZeros(bs[..|bs| - 1]);
      BitsOfZero(8);
    }
  }

  lemma {:induction false} BitsOfZero(w: nat)
    ensures BitsOf(0, w) == Zeros(w)
  {
    if w > 0 {
      BitsOfZero(w - 1);
      assert Zeros(w) == [false] + Zeros(w - 1);
    }
  }
}
