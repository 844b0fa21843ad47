/** `rz3_bitarray`: a growable array of elements of 1 to 64 bits, packed across the boundaries of 64-bit words. */
module BitArray {
  import opened Basics
  import opened Bits

  // ---------- 64-bit words, as their binary digits, lowest first ----------

  type Word = w: seq<bool> | |w| == 64 witness seq(64, _ => false)

  function And(a: Word, b: Word): Word { seq(64, i requires 0 <= i < 64 => a[i] && b[i]) }

  function Or(a: Word, b: Word): Word { seq(64, i requires 0 <= i < 64 => a[i] || b[i]) }

  function Not(a: Word): Word { seq(64, i requires 0 <= i < 64 => !a[i]) }

  function Shl(a: Word, n: nat): Word { seq(64, i requires 0 <= i < 64 => i >= n && a[i - n]) }

  function Shr(a: Word, n: nat): Word { seq(64, i requires 0 <= i < 64 => i + n < 64 && a[i + n]) }

  /** The word whose low `n` digits are ones. */
  function Mask(n: nat): Word { seq(64, i requires 0 <= i < 64 => i < n) }

  const Zero: Word := seq(64, i requires 0 <= i < 64 => false)

  /** The masks are the numbers the source computes: `(1 << n) - 1`, and `~0 >> (64 - n)`. */
  lemma MaskValue(n: nat, rest: nat)
    requires n + rest == 64
    ensures Val(Mask(n)) == Pow2(n) - 1
    ensures Mask(n) == Shr(Not(Zero), rest)
  {
    var ones := seq(n, _ => true);
    ValAppend(ones, Zeros(rest));
    ValZeros(rest);
    ValOnes(n);
    MaskOnes(n, rest);
    MaskShift(n, rest);
  }

  lemma MaskOnes(n: nat, rest: nat)
    requires n + rest == 64
    ensures Mask(n) == seq(n, _ => true) + Zeros(rest)
  {
  }

  lemma MaskShift(n: nat, rest: nat)
    requires n + rest == 64
    ensures Mask(n) == Shr(Not(Zero), rest)
  {
  }

  lemma {:induction false} ValOnes(n: nat)
    ensures Val(seq(n, _ => true)) == Pow2(n) - 1
  {
    if n > 0 {
      ValOnes(n - 1);
      assert seq(n, _ => true)[1..] == seq(n - 1, _ => true);
    }
  }

  // ---------- the specification: a plain sequence of elements ----------

  /** Digit `p` of a run of words. */
  ghost predicate Bit(words: seq<Word>, p: nat)
    requires p < 64 * |words|
  {
    words[p / 64][p % 64]
  }

  /** The `w` digits from position `p`, widened with zeros to a word. */
  ghost function Window(words: seq<Word>, p: nat, w: nat): Word
    requires p + w <= 64 * |words|
  {
    seq(64, i requires 0 <= i < 64 => i < w && Bit(words, p + i))
  }

  /** The first `count` elements of width `w`. */
  ghost function Elements(words: seq<Word>, count: nat, w: nat): (es: seq<Word>)
    requires count * w <= 64 * |words|
    ensures |es| == count
  {
    seq(count, k requires 0 <= k < count => Fits(k, count, w); Window(words, k * w, w))
  }

  lemma Fits(k: nat, count: nat, w: nat)
    requires k < count
    ensures k * w + w <= count * w
  {
    MulMono(k + 1, count, w);
  }

  lemma SameElements(a: seq<Word>, b: seq<Word>, count: nat, w: nat)
    requires count * w <= 64 * |a| && count * w <= 64 * |b|
    requires forall p: nat :: p < count * w ==> Bit(a, p) == Bit(b, p)
    ensures Elements(a, count, w) == Elements(b, count, w)
  {
    forall k | 0 <= k < count ensures Elements(a, count, w)[k] == Elements(b, count, w)[k] {
      SameElement(a, b, count, w, k, count * w, k * w);
    }
  }

  lemma SameElement(a: seq<Word>, b: seq<Word>, count: nat, w: nat, k: nat, n: nat, p: nat)
    requires k < count && n == count * w && p == k * w && n <= 64 * |a| && n <= 64 * |b|
    requires forall q: nat :: q < n ==> Bit(a, q) == Bit(b, q)
    ensures Elements(a, count, w)[k] == Elements(b, count, w)[k]
  {
    Fits(k, count, w);
    SameWindow(a, b, n, p, w);
  }

  lemma SameWindow(a: seq<Word>, b: seq<Word>, n: nat, p: nat, w: nat)
    requires p + w <= n <= 64 * |a| && n <= 64 * |b|
    requires forall q: nat :: q < n ==> Bit(a, q) == Bit(b, q)
    ensures Window(a, p, w) == Window(b, p, w)
  {
  }

  lemma SameStart(a: seq<Word>, b: seq<Word>, n: nat, count: nat, w: nat)
    requires n <= |a| && n <= |b| && a[..n] == b[..n] && count * w <= 64 * n
    ensures Elements(a, count, w) == Elements(b, count, w)
  {
    forall p: nat | p < count * w ensures Bit(a, p) == Bit(b, p) {
      assert a[..n][p / 64] == b[..n][p / 64];
    }
    SameElements(a, b, count, w);
  }

  // ---------- the word operations of Push and Get ----------

  /** `Push`'s two branches, on the words. */
  function Stored(words: seq<Word>, nbits: nat, w: nat, x: Word): (r: seq<Word>)
    requires 1 <= w <= 64 && nbits + w <= 64 * |words|
    ensures |r| == |words|
  {
    var idx, offs := nbits / 64, nbits % 64;
    if 64 % w != 0 && 64 - offs < w then
      var lbits := 64 - offs;
      var low := Or(And(words[idx], Not(Shl(Mask(lbits), offs))), Shl(And(x, Mask(lbits)), offs));
      words[idx := low][idx + 1 := Shr(x, lbits)]
    else
      words[idx := Or(And(words[idx], Not(Shl(Mask(w), offs))), Shl(x, offs))]
  }

  /** `Get`'s two branches, on the words. */
  function Fetched(words: seq<Word>, pos: nat, w: nat): Word
    requires 1 <= w <= 64 && pos + w <= 64 * |words|
  {
    var idx, offs := pos / 64, pos % 64;
    if 64 % w != 0 && offs + w > 64 then
      var hbits := offs + w - 64;
      Or(Shr(words[idx], offs), Shl(And(words[idx + 1], Mask(hbits)), w - hbits))
    else
      And(Shr(words[idx], offs), Mask(w))
  }

  /** When the width divides 64, no element that starts at a multiple of it straddles a word. */
  lemma Aligned(k: nat, w: nat)
    requires 1 <= w <= 64 && 64 % w == 0
    ensures (k * w) % 64 + w <= 64
  {
    var q := 64 / w;
    assert q * w == 64;
    var a, b := k / q, k % q;
    assert k * w == (a * q + b) * w == a * 64 + b * w by {
      assert (a * q) * w == a * (q * w);
    }
    Fits(b, q, w);
    DivModUnique(k * w, 64, a, b * w);
  }

  lemma Position(p: nat, i: nat)
    requires i <= 64
    ensures p % 64 + i < 64 ==> (p + i) / 64 == p / 64 && (p + i) % 64 == p % 64 + i
    ensures p % 64 + i >= 64 && i < 64 ==> (p + i) / 64 == p / 64 + 1 && (p + i) % 64 == p % 64 + i - 64
  {
  }

  lemma FetchedIsWindow(words: seq<Word>, k: nat, w: nat)
    requires 1 <= w <= 64 && k * w + w <= 64 * |words|
    ensures Fetched(words, k * w, w) == Window(words, k * w, w)
  {
    var p := k * w;
    if 64 % w == 0 { Aligned(k, w); }
    var f, v := Fetched(words, p, w), Window(words, p, w);
    forall i | 0 <= i < 64 ensures f[i] == v[i] {
      Position(p, i);
      if i < w { assert v[i] == Bit(words, p + i); } else { assert !v[i]; }
    }
  }

  /** A store disturbs no digit before its own `w`, */
  lemma StoredBefore(words: seq<Word>, k: nat, w: nat, x: Word, p: nat)
    requires 1 <= w <= 64 && k * w + w <= 64 * |words| && p < k * w
    ensures Bit(Stored(words, k * w, w, x), p) == Bit(words, p)
  {
  }

  /** and writes those. */
  lemma StoredBit(words: seq<Word>, k: nat, w: nat, x: Word, i: nat)
    requires 1 <= w <= 64 && k * w + w <= 64 * |words| && i < w
    requires forall i :: w <= i < 64 ==> !x[i]
    ensures Bit(Stored(words, k * w, w, x), k * w + i) == x[i]
  {
    if 64 % w == 0 { Aligned(k, w); }
    Position(k * w, i);
  }

  lemma StoredWindow(words: seq<Word>, k: nat, w: nat, x: Word)
    requires 1 <= w <= 64 && k * w + w <= 64 * |words|
    requires forall i :: w <= i < 64 ==> !x[i]
    ensures Window(Stored(words, k * w, w, x), k * w, w) == x
  {
    var v := Window(Stored(words, k * w, w, x), k * w, w);
    forall i | 0 <= i < 64 ensures v[i] == x[i] {
      if i < w { StoredBit(words, k, w, x, i); }
    }
  }

  lemma ElementsSnoc(words: seq<Word>, k: nat, w: nat)
    requires k * w + w <= 64 * |words|
    ensures (k + 1) * w == k * w + w
    ensures Elements(words, k + 1, w) == Elements(words, k, w) + [Window(words, k * w, w)]
  {
  }

  lemma StoredAppends(words: seq<Word>, k: nat, w: nat, x: Word)
    requires 1 <= w <= 64 && k * w + w <= 64 * |words|
    requires forall i :: w <= i < 64 ==> !x[i]
    ensures (k + 1) * w == k * w + w
    ensures Elements(Stored(words, k * w, w, x), k + 1, w) == Elements(words, k, w) + [x]
  {
    var words' := Stored(words, k * w, w, x);
    forall p: nat | p < k * w ensures Bit(words, p) == Bit(words', p) { StoredBefore(words, k, w, x, p); }
    SameElements(words, words', k, w);
    StoredWindow(words, k, w, x);
    ElementsSnoc(words', k, w);
  }

  /** `memcpy` of whole words. */
  method CopyWords(dst: array<Word>, src: array<Word>, n: nat)
    requires n <= src.Length && n <= dst.Length && src != dst
    modifies dst
    ensures dst[..n] == src[..n] && dst[n..] == old(dst[n..])
  {
    var i := 0;
    while i < n
      invariant 0 <= i <= n
      invariant forall j :: 0 <= j < i ==> dst[j] == src[j]
      invariant forall j :: i <= j < dst.Length ==> dst[j] == old(dst[j])
    {
      dst[i] := src[i];
      i := i + 1;
    }
  }

  // ---------- the class ----------

  class PackedArray {
    const elemsize: nat
    const straddle: bool
    var u64: array<Word>
    var count: nat
    var maxcount: nat
    var nbits: nat
    var nextidx: nat
    var sum: nat

    ghost predicate Valid()
      reads this
    {
      && 1 <= elemsize <= 64
      && straddle == (64 % elemsize != 0)
      && count <= maxcount
      && nbits == count * elemsize
      && maxcount * elemsize <= 64 * u64.Length
      && u64.Length == (maxcount * elemsize + 63) / 64
    }

    /** The abstract value: the elements pushed since the last `Clear`, each cut to the width. */
    ghost function Contents(): (es: seq<Word>)
      reads this, u64
      requires Valid()
      ensures |es| == count
    {
      MulMono(count, maxcount, elemsize);
      Elements(u64[..], count, elemsize)
    }

    constructor (width: nat, sizeHint: int)
      requires 1 <= width <= 64
      ensures Valid() && elemsize == width && fresh(u64)
      ensures Contents() == [] && nextidx == 0 && sum == 0
      ensures maxcount == if sizeHint > 0 then sizeHint else if sizeHint == 0 then 65536 / width else 0
    {
      elemsize := width;
      straddle := 64 % width != 0;
      maxcount, count, nextidx, sum, nbits := 0, 0, 0, 0, 0;
      u64 := new Word[0];
      new;
      Reallocate(if sizeHint != 0 then sizeHint else 1024 * 64 / width);
      Clear();
    }

    method Clear()
      requires Valid()
      modifies this
      ensures Valid() && u64 == old(u64) && maxcount == old(maxcount)
      ensures Contents() == [] && nextidx == 0 && sum == 0
    {
      count, nextidx, sum, nbits := 0, 0, 0, 0;
    }

    /** Growth keeps every element and never shrinks the capacity. */
    method Reallocate(desired: int)
      requires Valid()
      modifies this
      ensures Valid() && Contents() == old(Contents())
      ensures maxcount >= desired && maxcount >= old(maxcount)
      ensures maxcount != old(maxcount) ==> maxcount == desired || maxcount == 2 * old(maxcount) > desired
      ensures u64 == old(u64) || fresh(u64)
      ensures count == old(count) && nextidx == old(nextidx) && sum == old(sum)
    {
      if desired <= maxcount { return; }
      var size := if desired < 2 * maxcount then 2 * maxcount else desired;
      var newWords := new Word[(size * elemsize + 63) / 64];
      MulMono(count, maxcount, elemsize);
      MulMono(maxcount, size, elemsize);
      assert u64.Length <= newWords.Length;
      CopyWords(newWords, u64, u64.Length);
      SameStart(u64[..], newWords[..], u64.Length, count, elemsize);
      u64 := newWords;
      maxcount := size;
    }

    /** The word writes of `Push`. */
    method StoreAtEnd(x: Word)
      requires Valid() && nbits + elemsize <= 64 * u64.Length
      modifies u64
      ensures u64[..] == Stored(old(u64[..]), nbits, elemsize, x)
    {
      var idx, offs := nbits / 64, nbits % 64;
      if straddle && 64 - offs < elemsize {
        var lbits := 64 - offs;
        u64[idx] := And(u64[idx], Not(Shl(Mask(lbits), offs)));
        u64[idx] := Or(u64[idx], Shl(And(x, Mask(lbits)), offs));
        u64[idx + 1] := Shr(x, lbits);
      } else {
        u64[idx] := And(u64[idx], Not(Shl(Mask(elemsize), offs)));
        u64[idx] := Or(u64[idx], Shl(x, offs));
      }
    }

    /** Appends one element, whatever its width and wherever it falls in the words. */
    method Push(data: Word)
      requires Valid()
      modifies this, u64
      ensures Valid()
      ensures Contents() == old(Contents()) + [And(data, Mask(elemsize))]
      ensures sum == (old(sum) + Val(And(data, Mask(elemsize)))) % 0x1_0000_0000_0000_0000
      ensures nextidx == old(nextidx)
      ensures u64 == old(u64) || fresh(u64)
    {
      var x := And(data, Mask(elemsize));
      if count >= maxcount { Reallocate(count + 1); }
      Fits(count, maxcount, elemsize);
      StoredAppends(u64[..], count, elemsize, x);
      StoreAtEnd(x);
      count := count + 1;
      nbits := nbits + elemsize;
      sum := (sum + Val(x)) % 0x1_0000_0000_0000_0000;
    }

    method Get(key: nat) returns (ok: bool, value: Word)
      requires Valid()
      ensures ok == (key < count)
      ensures ok ==> value == Contents()[key]
    {
      ok, value := false, Zero;
      if key >= count { return; }
      MulMono(count, maxcount, elemsize);
      Fits(key, count, elemsize);
      FetchedIsWindow(u64[..], key, elemsize);
      ok := true;
      var idx, offs := (key * elemsize) / 64, (key * elemsize) % 64;
      if straddle && offs + elemsize > 64 {
        var hbits := offs + elemsize - 64;
        var lbits := elemsize - hbits;
        value := Shr(u64[idx], offs);
        value := Or(value, Shl(And(u64[idx + 1], Mask(hbits)), lbits));
      } else {
        value := And(Shr(u64[idx], offs), Mask(elemsize));
      }
    }

    /** Returns the elements in insertion order; the cursor moves even when there is nothing left. */
    method GetNext() returns (ok: bool, value: Word)
      requires Valid()
      modifies this`nextidx
      ensures Valid() && nextidx == old(nextidx) + 1
      ensures ok == (old(nextidx) < count)
      ensures ok ==> value == Contents()[old(nextidx)]
    {
      ok, value := Get(nextidx);
      nextidx := nextidx + 1;
    }

    /** The bytes `CopyTo` will write for the present contents. */
    method GetMemBufSize() returns (sz: nat)
      requires Valid()
      ensures sz % 8 == 0 && 8 * sz - 64 < count * elemsize <= 8 * sz
    {
      sz := (count * elemsize + 63) / 64 * 8;
    }

    /** Copies the words in use into `membuf`; the words that follow in `membuf` are left alone. */
    method CopyTo(membuf: array<Word>) returns (sz: nat)
      requires Valid() && membuf != u64 && nbits <= 64 * membuf.Length
      modifies membuf
      ensures Valid() && Contents() == old(Contents())
      ensures sz % 8 == 0 && sz / 8 <= membuf.Length && sz / 8 == (nbits + 63) / 64
      ensures count * elemsize <= 64 * |membuf[..]| && Elements(membuf[..], count, elemsize) == Contents()
      ensures membuf[sz / 8..] == old(membuf[(nbits + 63) / 64..])
    {
      MulMono(count, maxcount, elemsize);
      var n := (nbits + 63) / 64;
      sz := 8 * n;
      CopyWords(membuf, u64, n);
      SameStart(u64[..], membuf[..], n, count, elemsize);
    }

    /** Replaces the contents by `argCount` elements read from `membuf`; the cursor and the sum are left alone. */
    method CopyFrom(membuf: array<Word>, argCount: nat) returns (sz: nat)
      requires Valid() && membuf != u64
      requires argCount * elemsize <= 64 * membuf.Length
      modifies this, u64
      ensures Valid() && membuf[..] == old(membuf[..])
      ensures sz % 8 == 0 && sz / 8 == (nbits + 63) / 64
      ensures Contents() == Elements(membuf[..], argCount, elemsize)
      ensures nextidx == old(nextidx) && sum == old(sum)
      ensures u64 == old(u64) || fresh(u64)
    {
      if argCount > maxcount { Reallocate(argCount); }
      MulMono(argCount, maxcount, elemsize);
      count := argCount;
      nbits := count * elemsize;
      var n := (nbits + 63) / 64;
      sz := 8 * n;
      CopyWords(u64, membuf, n);
      SameStart(u64[..], membuf[..], n, count, elemsize);
    }
  }

  datatype Op = Clear | Push(data: Word) | Grow(desired: int)

  /** What a run of operations leaves in a plain sequence. */
  ghost function Meaning(start: seq<Word>, ops: seq<Op>, w: nat): seq<Word> {
    if ops == [] then start else
      var before := Meaning(start, ops[..|ops| - 1], w);
      match ops[|ops| - 1]
      case Clear => []
      case Push(x) => before + [And(x, Mask(w))]
      case Grow(_) => before
  }

  /** Any run of operations, then every key read back. */
  method RunAndRead(a: PackedArray, ops: seq<Op>) returns (values: seq<Word>)
    requires a.Valid()
    modifies a, a.u64
    ensures a.Valid() && values == a.Contents()
    ensures values == Meaning(old(a.Contents()), ops, a.elemsize)
  {
    var i := 0;
    while i < |ops|
      invariant 0 <= i <= |ops| && a.Valid()
      invariant a.u64 == old(a.u64) || fresh(a.u64)
      invariant a.Contents() == Meaning(old(a.Contents()), ops[..i], a.elemsize)
    {
      assert ops[..i + 1][..i] == ops[..i];
      match ops[i] {
        case Clear => a.Clear();
        case Push(x) => a.Push(x);
        case Grow(n) => a.Reallocate(n);
      }
      i := i + 1;
    }
    assert ops[..i] == ops;
    values := [];
    while |values| < a.count
      invariant |values| <= a.count && a.Valid() && values == a.Contents()[..|values|]
      invariant a.Contents() == Meaning(old(a.Contents()), ops, a.elemsize)
      decreases a.count - |values|
    {
      var _, v := a.Get(|values|);
      values := values + [v];
    }
  }

  /**
   * Whatever the two arrays held before, copying out of one and into the other of the same width carries every
   * element.
   */
  method CopyRoundTrip(from: PackedArray, to: PackedArray)
    requires from.Valid() && to.Valid() && from != to && from.u64 != to.u64 && from.elemsize == to.elemsize
    modifies to, to.u64
    ensures from.Valid() && to.Valid()
    ensures to.Contents() == from.Contents() == old(from.Contents())
  {
    MulMono(from.count, from.maxcount, from.elemsize);
    var membuf := new Word[(from.nbits + 63) / 64];
    var _ := from.CopyTo(membuf);
    var _ := to.CopyFrom(membuf, from.count);
  }
}
