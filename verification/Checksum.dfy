/** The Internet checksum that seals drop-in images (`checksum.c`), with its 32-bit accumulator. */
module Checksum {
  import opened Basics

  /** A region of memory: the halfwords `checksum` loads, then the left-over byte of an odd length, if any. */
  datatype Region = Region(halves: seq<u16>, odd: seq<byte>)

  predicate Wf(m: Region) { |m.odd| <= 1 }

  /** The number of terms added: at most one for the left-over byte. */
  function Terms(m: Region): nat { |m.halves| + |m.odd| }

  // ---------- the reference: an unbounded sum ----------

  function Sum(hs: seq<u16>): nat {
    if hs == [] then 0 else Sum(hs[..|hs| - 1]) + hs[|hs| - 1]
  }

  function Total(m: Region): nat
    requires Wf(m)
  {
    Sum(m.halves) + (if m.odd == [] then 0 else m.odd[0])
  }

  function Wrap(t: nat): u32 { t % 0x1_0000_0000 }

  /** What `checksum` returns for an accumulated sum, stated by residues modulo 65535. */
  function Seal(sum: u32): (c: u16)
    ensures c != 0
    ensures c == 0xffff <==> sum % 0xffff == 0
    ensures (sum + c) % 0xffff == 0
  {
    if sum % 0xffff == 0 then 0xffff else 0xffff - sum % 0xffff
  }

  // ---------- the code ----------

  /** One round of folding keeps the residue modulo 65535, and zero stays apart from its other multiples. */
  lemma FoldStep(sum: u32)
    requires sum >= 0x1_0000
    ensures 0 < sum % 0x1_0000 + sum / 0x1_0000 < sum
    ensures (sum % 0x1_0000 + sum / 0x1_0000) % 0xffff == sum % 0xffff
  {
    var lo, hi := sum % 0x1_0000, sum / 0x1_0000;
    assert sum == (lo + hi) + 0xffff * hi;
    ShiftResidue(lo + hi, hi);
  }

  lemma {:induction false} ShiftResidue(a: nat, k: nat)
    ensures (a + 0xffff * k) % 0xffff == a % 0xffff
  {
    if k > 0 { ShiftResidue(a, k - 1); }
  }

  /** The inner loop and the left-over byte, in a 32-bit accumulator. */
  method Accumulate(m: Region) returns (sum: u32)
    requires Wf(m)
    ensures sum == Wrap(Total(m))
  {
    sum := 0;
    var i := 0;
    while i < |m.halves|
      invariant 0 <= i <= |m.halves|
      invariant sum == Wrap(Sum(m.halves[..i]))
    {
      assert m.halves[..i + 1][..i] == m.halves[..i];
      WrapAdd(Sum(m.halves[..i]), m.halves[i]);
      sum := (sum + m.halves[i]) % 0x1_0000_0000;
      i := i + 1;
    }
    assert m.halves[..i] == m.halves;
    if m.odd != [] {
      WrapAdd(Sum(m.halves), m.odd[0]);
      sum := (sum + m.odd[0]) % 0x1_0000_0000;
    }
  }

  /** The folding loop: a halfword of the same residue, and zero only from zero. */
  method Fold(full: u32) returns (sum: u16)
    ensures sum % 0xffff == full % 0xffff
    ensures sum == 0 <==> full == 0
  {
    var s: u32 := full;
    while s >= 0x1_0000
      invariant s % 0xffff == full % 0xffff
      invariant s == 0 <==> full == 0
      decreases s
    {
      FoldStep(s);
      s := s % 0x1_0000 + s / 0x1_0000;
    }
    sum := s;
  }

  /** `checksum`: accumulate, fold, complement, and never return zero. */
  method InternetChecksum(m: Region) returns (c: u16)
    requires Wf(m)
    ensures c == Seal(Wrap(Total(m)))
  {
    var full := Accumulate(m);
    var sum := Fold(full);
    c := 0xffff - sum;
    if c == 0 { c := 0xffff; }
  }

  lemma WrapAdd(t: nat, x: nat)
    ensures Wrap(t + x) == (Wrap(t) + x) % 0x1_0000_0000
  {
  }

  // ---------- sealing and verifying ----------

  /** The region with halfword `k` replaced. */
  function Patch(m: Region, k: nat, h: u16): Region
    requires k < |m.halves|
  {
    m.(halves := m.halves[k := h])
  }

  lemma {:induction false} SumPatch(hs: seq<u16>, k: nat, h: u16)
    requires k < |hs|
    ensures Sum(hs[k := h]) == Sum(hs) - hs[k] + h
  {
    var n := |hs| - 1;
    if k == n {
      assert hs[k := h][..n] == hs[..n];
    } else {
      SumPatch(hs[..n], k, h);
      assert hs[k := h][..n] == hs[..n][k := h];
    }
  }

  lemma {:induction false} SumBound(hs: seq<u16>)
    ensures Sum(hs) <= 0xffff * |hs|
  {
    if hs != [] { SumBound(hs[..|hs| - 1]); }
  }

  /** Regions of at most 65537 terms never overflow the accumulator. */
  lemma NoWrap(m: Region)
    requires Wf(m) && Terms(m) <= 65537
    ensures Wrap(Total(m)) == Total(m)
  {
    SumBound(m.halves);
  }

  /** Adding the seal to the sum it was computed from overflows only from the all-ones sum. */
  lemma SealedSum(s: u32)
    ensures s != 0xffff_ffff ==> Seal(Wrap(s + Seal(s))) == 0xffff
    ensures s == 0xffff_ffff ==> Seal(Wrap(s + Seal(s))) == 1
  {
    var c := Seal(s);
    if s + c >= 0x1_0000_0000 {
      var q := (s + c) / 0xffff;
      assert s + c == 0xffff * q;
      assert q >= 65538;
      assert s == 0xffff_ffff && c == 0xffff;
    }
  }

  /** What a seal stored in field `k` verifies to, at any length. */
  ghost predicate Verifies(m: Region)
    requires Wf(m)
  {
    Seal(Wrap(Total(m))) == 0xffff
  }

  function Sealed(m: Region, k: nat): Region
    requires Wf(m) && k < |m.halves|
  {
    Patch(m, k, Seal(Wrap(Total(Patch(m, k, 0)))))
  }

  /** `make_dropin`: clear the field, take the checksum, store it. */
  method SealDropin(m: Region, k: nat) returns (r: Region)
    requires Wf(m) && k < |m.halves|
    ensures r == Sealed(m, k) && r.halves[k] != 0
  {
    var zeroed := Patch(m, k, 0);
    var c := InternetChecksum(zeroed);
    r := Patch(zeroed, k, c);
  }

  /** The reader's test: an unsealed drop-in (field zero) is never called bad, nor is any when forced. */
  method BadChecksum(m: Region, k: nat, force: bool) returns (bad: bool)
    requires Wf(m) && k < |m.halves|
    ensures bad <==> m.halves[k] != 0 && !force && !Verifies(m)
  {
    var c := InternetChecksum(m);
    bad := m.halves[k] != 0 && !force && c != 0xffff;
  }

  /** Sealing fails exactly when the rest of the region sums to 2^32 - 1 modulo 2^32. */
  lemma SealVerifies(m: Region, k: nat)
    requires Wf(m) && k < |m.halves|
    ensures Verifies(Sealed(m, k)) <==> Wrap(Total(Patch(m, k, 0))) != 0xffff_ffff
  {
    var zeroed := Patch(m, k, 0);
    var t := Total(zeroed);
    SumPatch(m.halves, k, 0);
    SumPatch(m.halves, k, Seal(Wrap(t)));
    WrapAdd(t, Seal(Wrap(t)));
    SealedSum(Wrap(t));
  }

  /** Up to 65537 terms the failing sum is out of reach, since the field itself contributes nothing. */
  lemma ShortSealVerifies(m: Region, k: nat)
    requires Wf(m) && k < |m.halves| && Terms(m) <= 65537
    ensures Verifies(Sealed(m, k))
  {
    var hs := m.halves;
    SealVerifies(m, k);
    NoWrap(Patch(m, k, 0));
    SumPatch(hs, k, 0);
    SumPatch(hs, k, 0xffff);
    SumBound(hs[k := 0xffff]);
  }

  /** A region whose field is zero and whose `n` other halfwords are all ones. */
  function AllOnes(n: nat): (m: Region)
    ensures Wf(m) && |m.halves| == n + 1
  {
    Region([0] + seq(n, _ => 0xffff), [])
  }

  lemma {:induction false} AllOnesTotal(n: nat)
    ensures Total(AllOnes(n)) == 0xffff * n
  {
    var hs := AllOnes(n).halves;
    if n == 0 {
      assert hs == [0];
      assert Sum(hs) == Sum(hs[..0]);
    } else {
      AllOnesTotal(n - 1);
      assert hs[..n] == AllOnes(n - 1).halves;
    }
  }

  /** The bound is exact: 65538 halfwords can seal to a value their own verification rejects. */
  lemma SealCanFail(n: nat)
    requires n == 65537
    ensures !Verifies(Sealed(AllOnes(n), 0))
  {
    var m := AllOnes(n);
    AllOnesTotal(n);
    assert Patch(m, 0, 0) == m;
    SealVerifies(m, 0);
  }

  /** Changing one halfword of a verified short region goes unnoticed only between the two zeros of one's complement. */
  lemma DetectsChange(m: Region, k: nat, h: u16)
    requires Wf(m) && k < |m.halves| && Terms(m) <= 65537 && Verifies(m)
    ensures Verifies(Patch(m, k, h)) <==> h == m.halves[k] || {h, m.halves[k]} == {0, 0xffff}
  {
    var a := m.halves[k];
    NoWrap(m);
    NoWrap(Patch(m, k, h));
    SumPatch(m.halves, k, h);
    var t := Total(m);
    assert Total(Patch(m, k, h)) == t - a + h;
    Moved(t, h - a);
    TwoZeros(a, h);
  }

  lemma Moved(t: int, d: int)
    requires t % 0xffff == 0
    ensures (t + d) % 0xffff == 0 <==> d % 0xffff == 0
  {
  }

  lemma TwoZeros(a: u16, h: u16)
    ensures (h - a) % 0xffff == 0 <==> h == a || {h, a} == {0, 0xffff}
  {
    if {h, a} == {0, 0xffff} {
      assert h in {h, a} && a in {h, a};
    }
  }

  /** A left-over byte counts like a halfword of its value. */
  lemma OddByteCounts(hs: seq<u16>, b: byte)
    ensures Total(Region(hs, [b])) == Total(Region(hs + [b], []))
  {
    assert (hs + [b])[..|hs|] == hs;
  }

  /** And a change of it never goes unnoticed. */
  lemma DetectsOddChange(m: Region, b: byte)
    requires Wf(m) && |m.odd| == 1 && Terms(m) <= 65537 && Verifies(m)
    ensures Verifies(m.(odd := [b])) <==> b == m.odd[0]
  {
    NoWrap(m);
    NoWrap(m.(odd := [b]));
    var t, d := Total(m), b - m.odd[0];
    assert Total(m.(odd := [b])) == t + d;
    Moved(t, d);
  }
}
