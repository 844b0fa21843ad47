/** comp.c: the compressor with its globals as fields. */
module LzwCompress {
  import opened Basics
  import opened Bits
  import opened LzwFormat
  import opened LzwLockstep
  import opened LzwTheorems
  import opened LzwHash

  const CHECK_GAP := 10000
  const ROUNDOUT := 4

  /** The low `k` bytes of `v` in two's complement, lowest first. */
  function LowBytes(v: int, k: nat): (s: seq<byte>)
    ensures |s| == k
    decreases k
  {
    if k == 0 then [] else [v % 256] + LowBytes(v / 256, k - 1)
  }

  /** What is left of `v` above its low `k` bytes. */
  function ShiftBytes(v: int, k: nat): int
    decreases k
  {
    if k == 0 then v else ShiftBytes(v / 256, k - 1)
  }

  /** Writing the low bytes of a packed value writes its bits. */
  lemma {:induction false} LowBytesBits(v: nat, k: nat, rest: nat)
    requires v < Pow2(8 * k + rest)
    ensures 0 <= ShiftBytes(v, k) < Pow2(rest)
    ensures BitsOf(v, 8 * k + rest) == BytesBits(LowBytes(v, k)) + BitsOf(ShiftBytes(v, k), rest)
    decreases k
  {
    if k > 0 {
      LowByteBits(v, 8 * (k - 1) + rest);
      LowBytesBits(v / 256, k - 1, rest);
      BytesBitsAppend([v % 256], LowBytes(v / 256, k - 1));
      AppendAssoc(BytesBits([v % 256]), BytesBits(LowBytes(v / 256, k - 1)), BitsOf(ShiftBytes(v, k), rest));
    }
  }

  lemma {:induction false} LowByteBits(v: nat, w: nat)
    requires v < Pow2(8 + w)
    ensures v / 256 < Pow2(w)
    ensures BitsOf(v, 8 + w) == BytesBits([v % 256]) + BitsOf(v / 256, w)
  {
    Pow2Values();
    SplitBits(v, 8, w, v / 256, v % 256);
    BytesBitsOne(v % 256);
  }

  /** The bytes written after the header and the bits still waiting make up `stream`. */
  ghost predicate Packed(out: seq<byte>, oldCode: int, offset: int, stream: seq<bool>) {
    && |out| >= 3 && out[..3] == [MAGIC0, MAGIC1, MAX_BITS]
    && 0 <= offset < 8 && 0 <= oldCode < Pow2(offset)
    && BytesBits(out[3..]) + BitsOf(oldCode, offset) == stream
  }

  function ZeroBytes(n: nat): (s: seq<byte>)
    ensures |s| == n && forall i :: 0 <= i < n ==> s[i] == 0
  {
    seq(n, _ => 0)
  }

  lemma {:induction false} PackedBits(low: nat, n: nat, code: nat, w: nat, v: nat, k: nat, r: nat)
    requires low < Pow2(n) && code < Pow2(w) && v == low + Pow2(n) * code && n + w == 8 * k + r
    ensures 0 <= ShiftBytes(v, k) < Pow2(r)
    ensures BitsOf(low, n) + BitsOf(code, w) == BytesBits(LowBytes(v, k)) + BitsOf(ShiftBytes(v, k), r)
  {
    StackBits(low, n, code, w);
    LowBytesBits(v, k, r);
  }

  lemma {:induction false} PackedAppend(out: seq<byte>, low: seq<byte>, a: seq<bool>, b: seq<bool>, r: seq<bool>)
    requires |out| >= 3 && a + b == BytesBits(low) + r
    ensures (out + low)[..3] == out[..3]
    ensures BytesBits((out + low)[3..]) + r == (BytesBits(out[3..]) + a) + b
  {
    var x := BytesBits(out[3..]);
    assert (out + low)[3..] == out[3..] + low;
    BytesBitsAppend(out[3..], low);
    AppendAssoc(x, BytesBits(low), r);
    AppendAssoc(x, a, b);
  }

  lemma Commute(a: int, b: int)
    ensures a * b == b * a
  {
  }

  lemma Stacked(v: int, code: int, p: int, low: int)
    requires v == code * p + low
    ensures v == low + p * code
  {
  }

  /** The arithmetic of putcode appends exactly the code's bits. */
  lemma {:induction false} PutCodePacks(out: seq<byte>, oldCode: int, offset: int, stream: seq<bool>, code: nat,
                                        nBits: nat, v: int, k: nat, r: nat)
    requires Packed(out, oldCode, offset, stream) && code < Pow2(nBits)
    requires v == code * Pow2(offset) + oldCode && offset + nBits == 8 * k + r && r < 8
    ensures Packed(out + LowBytes(v, k), ShiftBytes(v, k), r, stream + BitsOf(code, nBits))
  {
    Stacked(v, code, Pow2(offset), oldCode);
    PackedBits(oldCode, offset, code, nBits, v, k, r);
    PackedAppend(out, LowBytes(v, k), BitsOf(oldCode, offset), BitsOf(code, nBits), BitsOf(ShiftBytes(v, k), r));
  }

  /** endout appends only zero bits. */
  lemma {:induction false} EndOutPads(out: seq<byte>, oldCode: int, offset: int, stream: seq<bool>, tail: seq<byte>,
                                      pad: nat)
    requires Packed(out, oldCode, offset, stream)
    requires tail == if offset != 0 then [oldCode % 256] else []
    ensures (out + tail + ZeroBytes(pad))[..3] == [MAGIC0, MAGIC1, MAX_BITS]
    ensures BytesBits((out + tail + ZeroBytes(pad))[3..]) ==
      stream + Zeros((if offset != 0 then 8 - offset else 0) + 8 * pad)
  {
    var z := if offset != 0 then 8 - offset else 0;
    TailBits(oldCode, offset, tail, z);
    PackedAppend(out, tail, BitsOf(oldCode, offset), Zeros(z), []);
    ZeroBytesPad(out + tail, stream, z, pad);
  }

  lemma {:induction false} ZeroBytesPad(x: seq<byte>, stream: seq<bool>, z: nat, pad: nat)
    requires |x| >= 3 && BytesBits(x[3..]) + [] == stream + Zeros(z)
    ensures (x + ZeroBytes(pad))[..3] == x[..3]
    ensures BytesBits((x + ZeroBytes(pad))[3..]) == stream + Zeros(z + 8 * pad)
  {
    var zeros := ZeroBytes(pad);
    assert (x + zeros)[3..] == x[3..] + zeros && (x + zeros)[..3] == x[..3];
    BytesBitsAppend(x[3..], zeros);
    BytesBitsZeros(zeros);
    assert Zeros(z) + Zeros(8 * pad) == Zeros(z + 8 * pad);
    AppendAssoc(stream, Zeros(z), Zeros(8 * pad));
  }

  lemma {:induction false} TailBits(oldCode: nat, offset: nat, tail: seq<byte>, z: nat)
    requires offset < 8 && oldCode < Pow2(offset)
    requires tail == if offset != 0 then [oldCode % 256] else []
    requires z == if offset != 0 then 8 - offset else 0
    ensures BitsOf(oldCode, offset) + Zeros(z) == BytesBits(tail) + []
  {
    if offset != 0 {
      FitsByte(oldCode, offset, 8);
      StackZeros(oldCode, offset, z, 8);
      BytesBitsOne(oldCode);
    }
  }

  lemma {:induction false} FitsByte(v: nat, n: nat, w: nat)
    requires v < Pow2(n) && n <= w == 8
    ensures v < 256 && v % 256 == v
  {
    Pow2Mono(n, w);
    Pow2Values();
  }

  lemma {:induction false} StackZeros(v: nat, n: nat, z: nat, w: nat)
    requires v < Pow2(n) && n + z == w
    ensures BitsOf(v, n) + Zeros(z) == BitsOf(v, w)
  {
    StackBits(v, n, 0, z);
    BitsOfZero(z);
    Commute(Pow2(n), 0);
  }

  lemma {:induction false} ClearFits(nBits: nat)
    requires nBits >= 9
    ensures CLEAR < END < Pow2(nBits)
  {
    Pow2Values();
    Pow2Mono(9, nBits);
  }

  lemma {:induction false} NothingPacked(out: seq<byte>)
    requires out == [MAGIC0, MAGIC1, MAX_BITS]
    ensures Packed(out, 0, 0, [])
  {
  }

  lemma {:induction false} StartWf(c: byte, w: nat)
    requires w == INIT_BITS
    ensures WfEnc(EncInit(c)) && MaxCode(w) == 511
  {
    Pow2Values();
  }

  lemma {:induction false} RunExtends(input: seq<byte>, i: nat, choices: seq<Choice>, choice: Choice)
    requires 0 < i < |input| && |choices| == i - 1 && ValidRun(input[..i], choices)
    requires ChoiceOk(EncRun(input[..i], choices), input[i], choice)
    ensures ValidRun(input[..i + 1], choices + [choice])
    ensures EncRun(input[..i + 1], choices + [choice]) == EncStep(EncRun(input[..i], choices), input[i], choice)
    ensures EncStream(input[..i + 1], choices + [choice]) ==
            EncStream(input[..i], choices) + EncBits(EncRun(input[..i], choices), choice)
  {
    TakeSnoc(input, i);
    RunSnoc(input[..i], choices, input[i], choice);
  }

  // ------------------------------------------------------------ when the table is cleared

  /** Input bytes per output byte with 8 fractional bits; beyond 2^23 input bytes the scaling is applied below. */
  function Ratio(inCount: int, bytesOut: int): int
    requires bytesOut > 0
  {
    if inCount <= 0x7fffff then inCount * 256 / bytesOut
    else if bytesOut / 256 == 0 then 0x7fffffff
    else inCount / (bytesOut / 256)
  }

  /** The ratio is rounded down, and without output worth a scaled byte it is as large as can be. */
  lemma RatioBounds(inCount: int, bytesOut: int)
    requires bytesOut > 0
    ensures var rat, scaled := Ratio(inCount, bytesOut), bytesOut / 256;
            if inCount <= 0x7fffff then rat * bytesOut <= 256 * inCount < rat * bytesOut + bytesOut
            else if scaled == 0 then rat == 0x7fffffff
            else rat * scaled <= inCount < rat * scaled + scaled
  {
  }

  /** What cl_block goes by: when to look again, and the best ratio since the table was last cleared. */
  datatype Watch = Watch(checkpoint: int, ratio: int)

  const NewWatch := Watch(CHECK_GAP, 0)

  /** cl_block is called: the table is full and the checkpoint has been reached. */
  predicate LooksAt(w: Watch, entries: nat, inCount: int) {
    entries >= MAX_ENTRIES && inCount >= w.checkpoint
  }

  /** And the ratio after `bits` bits of code has not improved. */
  predicate ClearDue(w: Watch, entries: nat, inCount: int, bits: nat) {
    LooksAt(w, entries, inCount) && bits >= 8 && Ratio(inCount, bits / 8) <= w.ratio
  }

  function NextWatch(w: Watch, entries: nat, inCount: int, bits: nat): Watch {
    if !LooksAt(w, entries, inCount) || bits < 8 then w
    else Watch(inCount + CHECK_GAP, if ClearDue(w, entries, inCount, bits) then 0 else Ratio(inCount, bits / 8))
  }

  /** The watch after one more byte, the `inCount`-th, has been read in state `e` behind `stream`. */
  function WatchStep(w: Watch, e: Enc, bits: nat, inCount: int, choice: Choice): Watch {
    if choice.Hit? then w else NextWatch(w, |e.dict|, inCount, bits + e.nbits)
  }

  /** A miss clears the table exactly when that is due. */
  predicate StepTimely(w: Watch, e: Enc, bits: nat, inCount: int, choice: Choice) {
    choice.Hit? || (choice.MissClear? <==> ClearDue(w, |e.dict|, inCount, bits + e.nbits))
  }

  function WatchAfter(input: seq<byte>, choices: seq<Choice>): Watch
    requires |input| == |choices| + 1
    decreases |choices|
  {
    if choices == [] then NewWatch
    else
      var n := |choices| - 1;
      var input0, choices0 := input[..n + 1], choices[..n];
      WatchStep(WatchAfter(input0, choices0), EncRun(input0, choices0), |EncStream(input0, choices0)|, n + 2,
                choices[n])
  }

  /** A run in which the table is cleared when, and only when, the ratio says so. */
  predicate Timely(input: seq<byte>, choices: seq<Choice>)
    requires |input| == |choices| + 1
    decreases |choices|
  {
    choices == [] ||
    var n := |choices| - 1;
    var input0, choices0 := input[..n + 1], choices[..n];
    && Timely(input0, choices0)
    && StepTimely(WatchAfter(input0, choices0), EncRun(input0, choices0), |EncStream(input0, choices0)|, n + 2,
                  choices[n])
  }

  lemma {:induction false} TimelySnoc(input: seq<byte>, i: nat, choices: seq<Choice>, choice: Choice, w: Watch, e: Enc,
                                      bits: nat)
    requires 0 < i < |input| && |choices| == i - 1 && Timely(input[..i], choices)
    requires w == WatchAfter(input[..i], choices) && e == EncRun(input[..i], choices)
    requires bits == |EncStream(input[..i], choices)| && StepTimely(w, e, bits, i + 1, choice)
    ensures Timely(input[..i + 1], choices + [choice])
    ensures WatchAfter(input[..i + 1], choices + [choice]) == WatchStep(w, e, bits, i + 1, choice)
  {
    assert input[..i + 1][..i] == input[..i] && (choices + [choice])[..i - 1] == choices;
  }

  /** What a miss has to do at a checkpoint. */
  lemma AtCheckpoint(w: Watch, e: Enc, bits: nat, inCount: int, bytes: nat, rat: int)
    requires |e.dict| == MAX_ENTRIES && inCount >= w.checkpoint && (bits + e.nbits) / 8 == bytes > 0
    requires rat == Ratio(inCount, bytes)
    ensures StepTimely(w, e, bits, inCount, if rat > w.ratio then Miss else MissClear)
    ensures forall choice: Choice :: !choice.Hit? ==>
      WatchStep(w, e, bits, inCount, choice) == Watch(inCount + CHECK_GAP, if rat > w.ratio then rat else 0)
  {
  }

  lemma PackedBytes(out: seq<byte>, oldCode: int, offset: int, stream: seq<bool>)
    requires Packed(out, oldCode, offset, stream)
    ensures |stream| / 8 == |out| - 3
  {
  }

  lemma NextSlot(ent: Code, c: byte, n: nat, m: nat)
    requires m == n + 1
    ensures Slot(ent, c, m) == NextProbe(Slot(ent, c, n), Disp(FirstProbe(ent, c)))
  {
  }

  class Compressor {
    const htab: array<int>
    const codetab: array<int>
    var nBits: nat
    var maxCode: nat
    var freeEnt: nat
    var inCount: int
    var bytesOut: int
    var ratio: int
    var checkpoint: int
    var allOutBytes: int
    var oldCode: int
    var offset: int
    var outbuf: seq<byte>

    // the dictionary that the hash table stands for, and where its entries are found
    ghost var dict: Dict
    ghost var depth: seq<nat>

    ghost predicate Shape() {
      htab.Length == HSIZE && codetab.Length == HSIZE && htab != codetab
    }

    ghost predicate TableOk()
      reads this`dict, this`depth, htab, codetab
    {
      Shape() && HashInv(htab[..], codetab[..], dict, depth)
    }

    constructor ()
      ensures Shape() && allOutBytes == 0
      ensures fresh(htab) && fresh(codetab)
    {
      htab := new int[HSIZE];
      codetab := new int[HSIZE];
      nBits, maxCode, freeEnt := 0, 0, 0;
      inCount, bytesOut, ratio, checkpoint, allOutBytes := 1, 0, 0, CHECK_GAP, 0;
      oldCode, offset, outbuf := 0, 0, [];
      dict, depth := [], [];
    }

    /** cl_hash: blocks of 16 from the top, then the remainder. */
    method ClHash()
      requires Shape()
      modifies this`dict, this`depth, htab
      ensures TableOk() && dict == []
    {
      var p := HSIZE;
      var i := HSIZE - 16;
      while i >= 0
        invariant -16 <= i <= HSIZE - 16 && p == i + 16
        invariant forall s :: p <= s < HSIZE ==> htab[s] == -1
      {
        for k := 0 to 16
          invariant forall s :: p - k <= s < HSIZE ==> htab[s] == -1
        {
          htab[p - k - 1] := -1;
        }
        p := p - 16;
        i := i - 16;
      }
      i := i + 16;
      while i > 0
        invariant 0 <= i == p < HSIZE
        invariant forall s :: p <= s < HSIZE ==> htab[s] == -1
      {
        p := p - 1;
        htab[p] := -1;
        i := i - 1;
      }
      dict, depth := [], [];
      EmptyTable(htab[..], codetab[..]);
    }

    /** Look the pair up. The search ends within 18013 probes because the probes visit
        different slots and fewer than 18013 are occupied. */
    method Probe(ent: Code, c: byte) returns (hit: bool, i: nat, ghost n: nat)
      requires TableOk() && |dict| <= MAX_ENTRIES
      ensures i == Slot(ent, c, n)
      ensures hit ==> htab[i] >= 0 && FIRST <= codetab[i] < FIRST + |dict| && dict[codetab[i] - FIRST] == Entry(ent, c)
      ensures !hit ==> ProbeMiss(htab[..], ent, c, n)
      ensures !hit && Key(ent, c) != 0 ==> Entry(ent, c) !in dict
    {
      var fcode := Key(ent, c);
      ghost var h := htab[..];
      i := FirstProbe(ent, c);
      n := 0;
      hit := htab[i] == fcode;
      if !hit && htab[i] >= 0 {
        i, n := ProbeOn(ent, c, fcode, i, h);
        hit := htab[i] == fcode;
      }
      if hit {
        assert ProbeHit(h, ent, c, n);
        HitSound(h, codetab[..], dict, depth, ent, c, n);
      } else {
        assert ProbeMiss(h, ent, c, n);
        if fcode != 0 {
          MissGenuine(h, codetab[..], dict, depth, ent, c, n);
        }
      }
    }

    /** The secondary probes, from a first slot that holds another key. */
    method ProbeOn(ent: Code, c: byte, fcode: nat, first: nat, ghost h: seq<int>) returns (i: nat, ghost n: nat)
      requires TableOk() && |dict| <= MAX_ENTRIES && h == htab[..]
      requires fcode == Key(ent, c) && first == FirstProbe(ent, c) && htab[first] >= 0 && htab[first] != fcode
      ensures 1 <= n < HSIZE && i == Slot(ent, c, n) && (htab[i] == fcode || htab[i] <= 0)
      ensures forall m :: 0 <= m < n ==> Blocked(h, ent, c, m)
    {
      var disp := Disp(first);
      i, n := NextProbe(first, disp), 1;
      assert Blocked(h, ent, c, 0);
      while htab[i] != fcode && htab[i] > 0
        invariant 1 <= n < HSIZE && i == Slot(ent, c, n)
        invariant forall m :: 0 <= m < n ==> Blocked(h, ent, c, m)
        decreases HSIZE - n
      {
        assert Blocked(h, ent, c, n);
        BlockedCount(h, ent, c, n + 1);
        NextSlot(ent, c, n, n + 1);
        i := NextProbe(i, disp);
        n := n + 1;
      }
    }

    /** putcode: whole bytes of (code << offset) + oldcode go out, the rest waits. */
    method PutCode(code: int)
      requires 0 <= offset < 8 && nBits >= 9
      modifies this`outbuf, this`oldCode, this`offset, this`allOutBytes, this`bytesOut
      ensures var v, k := code * Pow2(old(offset)) + old(oldCode), (old(offset) + nBits) / 8;
              && outbuf == old(outbuf) + LowBytes(v, k)
              && oldCode == ShiftBytes(v, k)
              && allOutBytes == old(allOutBytes) + k
              && bytesOut == old(bytesOut) + k
      ensures offset == (old(offset) + nBits) % 8
    {
      var rCode := code * Pow2(offset) + oldCode;
      var rOff := offset + nBits;
      ghost var v, k := rCode, rOff / 8;
      ghost var done: nat := 0;
      ghost var start := outbuf;
      var more := true;
      while more
        invariant rOff >= 0 && rOff == old(offset) + nBits - 8 * done
        invariant done <= k && more == (done < k)
        invariant outbuf + LowBytes(rCode, k - done) == start + LowBytes(v, k)
        invariant ShiftBytes(rCode, k - done) == ShiftBytes(v, k)
        invariant allOutBytes == old(allOutBytes) + done && bytesOut == old(bytesOut) + done
        decreases k - done
      {
        outbuf := outbuf + [rCode % 256];
        allOutBytes := allOutBytes + 1;
        bytesOut := bytesOut + 1;
        rCode := rCode / 256;
        rOff := rOff - 8;
        done := done + 1;
        more := rOff >= 8;
      }
      oldCode := rCode;
      offset := rOff;
    }

    /** putcode, seen as an operation on the bit stream. */
    method PutBits(code: nat, ghost stream: seq<bool>)
      requires Packed(outbuf, oldCode, offset, stream) && nBits >= 9 && code < Pow2(nBits)
      modifies this`outbuf, this`oldCode, this`offset, this`allOutBytes, this`bytesOut
      ensures Packed(outbuf, oldCode, offset, stream + BitsOf(code, nBits))
      ensures allOutBytes - |outbuf| == old(allOutBytes - |outbuf|)
      ensures bytesOut - |outbuf| == old(bytesOut - |outbuf|) && bytesOut > old(bytesOut)
    {
      PutCodePacks(outbuf, oldCode, offset, stream, code, nBits,
                   code * Pow2(offset) + oldCode, (offset + nBits) / 8, (offset + nBits) % 8);
      PutCode(code);
    }

    /** endout: the last partial byte, then as many zero bytes as the remainder says. */
    method EndOut()
      requires 0 <= offset < 8
      modifies this`outbuf, this`oldCode, this`offset, this`allOutBytes
      ensures var tail := if old(offset) != 0 then [old(oldCode) % 256] else [];
              var pad := (old(allOutBytes) + |tail|) % ROUNDOUT;
              && outbuf == old(outbuf) + tail + ZeroBytes(pad)
              && allOutBytes == old(allOutBytes) + |tail| + pad
      ensures oldCode == 0 && offset == 0
    {
      if offset != 0 {
        allOutBytes := allOutBytes + 1;
        outbuf := outbuf + [oldCode % 256];
      }
      ghost var start, count := outbuf, allOutBytes;
      var i := allOutBytes % ROUNDOUT;
      ghost var pad: nat := i;
      while i > 0
        invariant 0 <= i <= pad
        invariant outbuf == start + ZeroBytes(pad - i)
        invariant allOutBytes == count + (pad - i)
      {
        i := i - 1;
        allOutBytes := allOutBytes + 1;
        outbuf := outbuf + [0];
      }
      oldCode, offset := 0, 0;
    }

    method CurrentRatio() returns (rat: int)
      requires bytesOut > 0
      ensures rat == Ratio(inCount, bytesOut)
    {
      if inCount > 0x7fffff {
        rat := bytesOut / 256;
        if rat == 0 {
          rat := 0x7fffffff;
        } else {
          rat := inCount / rat;
        }
      } else {
        rat := (inCount * 256) / bytesOut;
      }
    }

    method ClearTable(ghost stream: seq<bool>)
      requires Shape() && nBits >= 9 && Packed(outbuf, oldCode, offset, stream)
      modifies this`dict, this`depth, this`freeEnt, this`nBits, this`maxCode
      modifies this`outbuf, this`oldCode, this`offset, this`allOutBytes, this`bytesOut, htab
      ensures TableOk() && dict == []
      ensures freeEnt == FIRST && nBits == INIT_BITS && maxCode == 511
      ensures Packed(outbuf, oldCode, offset, stream + BitsOf(CLEAR, old(nBits)))
      ensures allOutBytes - |outbuf| == old(allOutBytes - |outbuf|)
      ensures bytesOut - |outbuf| == old(bytesOut - |outbuf|)
    {
      ClHash();
      freeEnt := FIRST;
      ClearFits(nBits);
      PutBits(CLEAR, stream);
      nBits := INIT_BITS;
      maxCode := 511;
    }

    /** cl_block: clear the table when the compression ratio has stopped growing. */
    method ClBlock(ghost stream: seq<bool>) returns (ghost cleared: bool)
      requires TableOk() && nBits >= 9 && bytesOut > 0
      requires Packed(outbuf, oldCode, offset, stream)
      modifies this`checkpoint, this`ratio, this`dict, this`depth, this`freeEnt, this`nBits, this`maxCode
      modifies this`outbuf, this`oldCode, this`offset, this`allOutBytes, this`bytesOut, htab
      ensures TableOk()
      ensures cleared <==> Ratio(inCount, old(bytesOut)) <= old(ratio)
      ensures checkpoint == inCount + CHECK_GAP && ratio == if cleared then 0 else Ratio(inCount, old(bytesOut))
      ensures !cleared ==>
        && dict == old(dict) && depth == old(depth) && freeEnt == old(freeEnt)
        && nBits == old(nBits) && maxCode == old(maxCode)
        && outbuf == old(outbuf) && oldCode == old(oldCode) && offset == old(offset)
        && allOutBytes == old(allOutBytes) && bytesOut == old(bytesOut)
      ensures cleared ==>
        && dict == [] && freeEnt == FIRST && nBits == INIT_BITS && maxCode == 511
        && Packed(outbuf, oldCode, offset, stream + BitsOf(CLEAR, old(nBits)))
        && allOutBytes - |outbuf| == old(allOutBytes - |outbuf|)
        && bytesOut - |outbuf| == old(bytesOut - |outbuf|)
    {
      checkpoint := inCount + CHECK_GAP;
      var rat := CurrentRatio();
      cleared := false;
      if rat > ratio {
        ratio := rat;
      } else {
        ratio := 0;
        ClearTable(stream);
        cleared := true;
      }
    }

    /** The concrete globals stand for the abstract encoder `e`. */
    ghost predicate Represents(e: Enc, stream: seq<bool>)
      reads this, htab, codetab
    {
      && TableOk() && WfEnc(e)
      && dict == e.dict && freeEnt == FIRST + |dict|
      && nBits == e.nbits && maxCode == MaxCode(nBits)
      && Packed(outbuf, oldCode, offset, stream)
      && bytesOut == |outbuf| - 3
    }

    ghost function View(): Watch
      reads this`checkpoint, this`ratio
    {
      Watch(checkpoint, ratio)
    }

    /** The table was cleared if that was due, and the watch was `w` before. */
    ghost predicate Watched(w: Watch, e: Enc, bits: nat, choice: Choice)
      reads this`checkpoint, this`ratio, this`inCount
    {
      StepTimely(w, e, bits, inCount, choice) && View() == WatchStep(w, e, bits, inCount, choice)
    }

    /** "If the next entry is going to be too big for the code size, then increase it." */
    method WidenCodes()
      requires maxCode == MaxCode(nBits)
      modifies this`nBits, this`maxCode
      ensures nBits == Widen(old(nBits), freeEnt) && maxCode == MaxCode(nBits)
      ensures nBits == old(nBits) + (if freeEnt > old(maxCode) then 1 else 0)
      ensures 0 < freeEnt < MAX_CODE && LeastWidth(old(nBits), freeEnt - 1) ==> LeastWidth(nBits, freeEnt)
    {
      if 0 < freeEnt < MAX_CODE && LeastWidth(nBits, freeEnt - 1) {
        WidenFits(nBits, freeEnt);
      }
      if freeEnt > maxCode {
        nBits := nBits + 1;
        if nBits == MAX_BITS {
          maxCode := MAX_CODE;
        } else {
          maxCode := Pow2(nBits) - 1;
        }
      }
    }

    /** Enter the pair in the slot where the probe ended. */
    method Enter(ent: Code, c: byte, i: nat, ghost n: nat)
      requires TableOk() && freeEnt == FIRST + |dict|
      requires i == Slot(ent, c, n) && ProbeMiss(htab[..], ent, c, n)
      modifies this`freeEnt, this`dict, this`depth, htab, codetab
      ensures TableOk() && dict == old(dict) + [Entry(ent, c)] && freeEnt == FIRST + |dict|
    {
      ghost var h, ct := htab[..], codetab[..];
      InsertKeeps(h, ct, dict, depth, ent, c, n);
      codetab[i] := freeEnt;
      freeEnt := freeEnt + 1;
      htab[i] := Key(ent, c);
      assert htab[..] == h[i := Key(ent, c)];
      assert codetab[..] == ct[i := FIRST + |dict|];
      dict, depth := dict + [Entry(ent, c)], depth + [n];
    }

    /** The part of the loop after "nomatch": put the pending code out, widen if the next
        entry needs it, and enter the new pair or consider a clear. */
    method NoMatch(ent: Code, c: byte, i: nat, ghost n: nat, ghost e: Enc, ghost stream: seq<bool>)
      returns (ghost choice: Choice)
      requires Represents(e, stream) && e.ent == ent
      requires i == Slot(ent, c, n) && ProbeMiss(htab[..], ent, c, n) && Absent(e, c)
      modifies this, htab, codetab
      ensures !choice.Hit? && ChoiceOk(e, c, choice)
      ensures Represents(EncStep(e, c, choice), stream + EncBits(e, choice))
      ensures inCount == old(inCount) && allOutBytes - |outbuf| == old(allOutBytes - |outbuf|)
      ensures Watched(old(View()), e, |stream|, choice)
    {
      EmitCode(ent, e, stream);
      StepWf(e, c, Miss);
      choice := EnterOrClear(ent, c, i, n, e, stream);
    }

    /** The code of `e` has been put out and the width is right for the next one. */
    ghost predicate Coded(e: Enc, stream: seq<bool>)
      reads this, htab, codetab
    {
      && TableOk() && WfEnc(e)
      && dict == e.dict && freeEnt == FIRST + |dict|
      && nBits == Widen(e.nbits, freeEnt) && maxCode == MaxCode(nBits) && nBits >= 9
      && Packed(outbuf, oldCode, offset, stream + BitsOf(e.ent, e.nbits))
      && bytesOut == |outbuf| - 3 > 0
    }

    method EmitCode(ent: Code, ghost e: Enc, ghost stream: seq<bool>)
      requires Represents(e, stream) && e.ent == ent
      modifies this`outbuf, this`oldCode, this`offset, this`allOutBytes, this`bytesOut, this`nBits, this`maxCode
      ensures Coded(e, stream)
      ensures allOutBytes - |outbuf| == old(allOutBytes - |outbuf|)
    {
      PutBits(ent, stream);
      WidenCodes();
    }

    method EnterOrClear(ent: Code, c: byte, i: nat, ghost n: nat, ghost e: Enc, ghost stream: seq<bool>)
      returns (ghost choice: Choice)
      requires Coded(e, stream) && e.ent == ent
      requires i == Slot(ent, c, n) && ProbeMiss(htab[..], ent, c, n)
      requires ChoiceOk(e, c, Miss) && WfEnc(EncStep(e, c, Miss))
      modifies this, htab, codetab
      ensures !choice.Hit? && ChoiceOk(e, c, choice)
      ensures Represents(EncStep(e, c, choice), stream + EncBits(e, choice))
      ensures inCount == old(inCount) && allOutBytes - |outbuf| == old(allOutBytes - |outbuf|)
      ensures Watched(old(View()), e, |stream|, choice)
    {
      choice := Miss;
      if freeEnt < MAX_CODE {
        Enter(ent, c, i, n);
      } else if inCount >= checkpoint {
        choice := ConsiderClear(c, e, stream);
      }
    }

    /** The adaptive reset, offered only once the table is full. */
    method ConsiderClear(c: byte, ghost e: Enc, ghost stream: seq<bool>) returns (ghost choice: Choice)
      requires Coded(e, stream) && freeEnt >= MAX_CODE && inCount >= checkpoint
      requires ChoiceOk(e, c, Miss) && WfEnc(EncStep(e, c, Miss)) && dict == EncStep(e, c, Miss).dict
      modifies this, htab
      ensures !choice.Hit? && ChoiceOk(e, c, choice)
      ensures Represents(EncStep(e, c, choice), stream + EncBits(e, choice))
      ensures inCount == old(inCount) && allOutBytes - |outbuf| == old(allOutBytes - |outbuf|)
      ensures Watched(old(View()), e, |stream|, choice)
    {
      ghost var w := nBits;
      PackedBytes(outbuf, oldCode, offset, stream + BitsOf(e.ent, e.nbits));
      AtCheckpoint(View(), e, |stream|, inCount, bytesOut, Ratio(inCount, bytesOut));
      ghost var cleared := ClBlock(stream + BitsOf(e.ent, e.nbits));
      choice := Miss;
      if cleared {
        choice := MissClear;
        StepWf(e, c, MissClear);
        AppendAssoc(stream, BitsOf(e.ent, e.nbits), BitsOf(CLEAR, w));
        Pow2Values();
      }
    }

    /** One turn of the main loop. */
    method NextByte(ent: Code, c: byte, ghost e: Enc, ghost stream: seq<bool>)
      returns (ent': Code, ghost choice: Choice)
      requires Represents(e, stream) && e.ent == ent
      modifies this, htab, codetab
      ensures ChoiceOk(e, c, choice) && ent' == EncStep(e, c, choice).ent
      ensures Represents(EncStep(e, c, choice), stream + EncBits(e, choice))
      ensures Watched(old(View()), e, |stream|, choice)
      ensures inCount == old(inCount) + 1 && allOutBytes - |outbuf| == old(allOutBytes - |outbuf|)
    {
      inCount := inCount + 1;
      var hit, slot, n := Probe(ent, c);
      if hit {
        choice := Hit(codetab[slot]);
        ent' := codetab[slot];
        StepWf(e, c, choice);
        assert stream + EncBits(e, choice) == stream;
      } else {
        choice := NoMatch(ent, c, slot, n, e, stream);
        ent' := c;
      }
    }

    /** initout and the setup in compress(). */
    method Setup(ghost c: byte)
      requires Shape() && outbuf == [MAGIC0, MAGIC1, MAX_BITS]
      modifies this, htab
      ensures Represents(EncInit(c), []) && View() == NewWatch
      ensures inCount == 1 && nBits == INIT_BITS && offset == 0 && oldCode == 0
      ensures outbuf == old(outbuf) && allOutBytes == old(allOutBytes)
    {
      ResetCounters();
      NothingPacked(outbuf);
      StartWf(c, nBits);
      ClHash();
    }

    method ResetCounters()
      modifies this`offset, this`oldCode, this`ratio, this`inCount, this`bytesOut, this`checkpoint
      modifies this`nBits, this`maxCode, this`freeEnt
      ensures offset == 0 && oldCode == 0 && ratio == 0 && inCount == 1 && bytesOut == 0 && checkpoint == CHECK_GAP
      ensures nBits == INIT_BITS && maxCode == 511 && freeEnt == FIRST
    {
      offset, oldCode, ratio, inCount, bytesOut, checkpoint := 0, 0, 0, 1, 0, CHECK_GAP;
      nBits, maxCode, freeEnt := INIT_BITS, 511, FIRST;
    }

    /** The main loop over a nonempty input. */
    method MainLoop(input: seq<byte>) returns (ent: Code, ghost choices: seq<Choice>)
      requires input != [] && Represents(EncInit(input[0]), []) && inCount == 1 && View() == NewWatch
      modifies this, htab, codetab
      ensures |input| == |choices| + 1 && ValidRun(input, choices) && Timely(input, choices)
      ensures Represents(EncRun(input, choices), EncStream(input, choices))
      ensures ent == EncRun(input, choices).ent
      ensures allOutBytes - |outbuf| == old(allOutBytes - |outbuf|)
    {
      ent := input[0];
      choices := [];
      ghost var e, stream := EncInit(input[0]), [];
      var i := 1;
      while i < |input|
        invariant 1 <= i <= |input| && |choices| == i - 1 && inCount == i
        invariant ValidRun(input[..i], choices)
        invariant Timely(input[..i], choices) && View() == WatchAfter(input[..i], choices)
        invariant e == EncRun(input[..i], choices) && stream == EncStream(input[..i], choices)
        invariant Represents(e, stream) && ent == e.ent
        invariant allOutBytes - |outbuf| == old(allOutBytes - |outbuf|)
      {
        var c := input[i];
        ghost var choice: Choice, w := *, View();
        ent, choice := NextByte(ent, c, e, stream);
        TimelySnoc(input, i, choices, choice, w, e, |stream|);
        RunExtends(input, i, choices, choice);
        stream := stream + EncBits(e, choice);
        e := EncStep(e, c, choice);
        choices := choices + [choice];
        i := i + 1;
      }
      assert input[..i] == input;
    }

    /** compress(): the ghost result is the abstract run that the output encodes. */
    method Compress(input: seq<byte>) returns (ghost choices: seq<Choice>)
      requires Shape() && outbuf == [MAGIC0, MAGIC1, MAX_BITS]
      modifies this, htab, codetab
      ensures allOutBytes == old(allOutBytes) + |outbuf| - 3
      ensures input != [] ==>
        && |input| == |choices| + 1 && ValidRun(input, choices) && Timely(input, choices)
        && CompressedForm(outbuf, input, choices)
      ensures input == [] ==> exists pad: nat ::
        pad < ROUNDOUT && outbuf == [MAGIC0, MAGIC1, MAX_BITS, 0xff, 1, 2] + ZeroBytes(pad)
    {
      Setup(if input == [] then 0 else input[0]);
      choices := [];
      if input == [] {
        EmptyInput();
      } else {
        var ent: Code;
        ent, choices := MainLoop(input);
        Finish(ent, EncRun(input, choices), EncStream(input, choices));
      }
    }

    /** The final code, END at the same width, and the padding. */
    method Finish(ent: Code, ghost e: Enc, ghost stream: seq<bool>)
      requires Represents(e, stream) && e.ent == ent
      modifies this
      ensures allOutBytes - |outbuf| == old(allOutBytes - |outbuf|)
      ensures |outbuf| >= 3 && outbuf[..3] == [MAGIC0, MAGIC1, MAX_BITS]
      ensures exists pad: nat ::
        BytesBits(outbuf[3..]) == stream + BitsOf(ent, e.nbits) + BitsOf(END, e.nbits) + Zeros(pad)
    {
      ClearFits(nBits);
      PutBits(ent, stream);
      PutBits(END, stream + BitsOf(ent, nBits));
      Flush(stream + BitsOf(ent, nBits) + BitsOf(END, nBits));
    }

    /** endout, seen on the bit stream. */
    method Flush(ghost stream: seq<bool>)
      requires Packed(outbuf, oldCode, offset, stream)
      modifies this`outbuf, this`oldCode, this`offset, this`allOutBytes
      ensures allOutBytes - |outbuf| == old(allOutBytes - |outbuf|)
      ensures |outbuf| >= 3 && outbuf[..3] == [MAGIC0, MAGIC1, MAX_BITS]
      ensures exists pad: nat :: BytesBits(outbuf[3..]) == stream + Zeros(pad)
    {
      ghost var tail: seq<byte> := if offset != 0 then [oldCode % 256] else [];
      ghost var pad: nat := (allOutBytes + |tail|) % ROUNDOUT;
      ghost var final, zeros: nat := outbuf + tail + ZeroBytes(pad), (if offset != 0 then 8 - offset else 0) + 8 * pad;
      EndOutPads(outbuf, oldCode, offset, stream, tail, pad);
      EndOut();
      assert outbuf == final;
      assert BytesBits(outbuf[3..]) == stream + Zeros(zeros);
    }

    /** On empty input the code put out is EOF itself, -1. */
    method EmptyInput()
      requires nBits == 9 && offset == 0 && oldCode == 0 && outbuf == [MAGIC0, MAGIC1, MAX_BITS]
      modifies this
      ensures allOutBytes == old(allOutBytes) + |outbuf| - 3
      ensures exists pad: nat :: pad < ROUNDOUT && outbuf == [MAGIC0, MAGIC1, MAX_BITS, 0xff, 1, 2] + ZeroBytes(pad)
    {
      assert LowBytes(-1, 1) == [255] && ShiftBytes(-1, 1) == -1;
      assert LowBytes(513, 1) == [1] && ShiftBytes(513, 1) == 2;
      PutCode(-1);
      PutCode(END);
      ghost var pad := (allOutBytes + 1) % ROUNDOUT;
      EndOut();
      assert outbuf == [MAGIC0, MAGIC1, MAX_BITS, 0xff, 1, 2] + ZeroBytes(pad);
    }

    /** comp(): header and body. The returned length counts the output of earlier calls too,
        because alloutbytes is never reset. */
    method Comp(src: seq<byte>) returns (len: int, ghost choices: seq<Choice>)
      requires Shape()
      modifies this, htab, codetab
      ensures len == old(allOutBytes) + |outbuf| == allOutBytes
      ensures src != [] ==>
        && |src| == |choices| + 1 && ValidRun(src, choices) && Timely(src, choices)
        && CompressedForm(outbuf, src, choices)
      ensures forall t :: WfTables(t) ==>
        (Decode(t, outbuf) == Ok(src) <==> src != [] && AllFit(Phrases(src, choices)))
      ensures 0 < |src| <= LONGEST_SAFE ==> forall t :: WfTables(t) ==> Decode(t, outbuf) == Ok(src)
    {
      outbuf := [];
      allOutBytes := allOutBytes + 1;
      outbuf := outbuf + [MAGIC0];
      allOutBytes := allOutBytes + 1;
      outbuf := outbuf + [MAGIC1];
      allOutBytes := allOutBytes + 1;
      outbuf := outbuf + [MAX_BITS];
      choices := Compress(src);
      len := allOutBytes;
      forall t | WfTables(t)
        ensures Decode(t, outbuf) == Ok(src) <==> src != [] && AllFit(Phrases(src, choices))
      {
        if src == [] {
          NeverDecodesToNothing(t, outbuf);
        } else {
          RoundTrip(t, outbuf, src, choices);
        }
      }
      if 0 < |src| <= LONGEST_SAFE {
        StackSuffices(src, choices);
      }
    }
  }
}
