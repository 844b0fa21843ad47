/** The LZW round trip and its exact limit: the decoder's 8000-byte stack. */
module LzwTheorems {
  import opened Basics
  import opened Bits
  import opened LzwFormat
  import opened LzwLockstep

  /** `bytes` is a compressed file for this run: header, code stream, zero padding. */
  ghost predicate CompressedForm(bytes: seq<byte>, input: seq<byte>, choices: seq<Choice>)
    requires |input| == |choices| + 1
  {
    && |bytes| >= 3 && bytes[..3] == [MAGIC0, MAGIC1, MAX_BITS]
    && exists pad: nat :: BytesBits(bytes[3..]) == FinalStream(input, choices) + Zeros(pad)
  }

  /** END is written one bit short when the decoder has already widened; the missing bit is
      a padding zero or the end of the input, and either way the decoder stops. */
  lemma {:induction false} StopsAtEnd(d: Dec, nbits: nat, pad: nat)
    requires WfDec(d) && d.phase == Main
    requires INIT_BITS <= nbits <= MAX_BITS && nbits <= d.nbits <= nbits + 1
    ensures DecRun(d, BitsOf(END, nbits) + Zeros(pad)) == Ok(d.out)
  {
    var rem := BitsOf(END, nbits) + Zeros(pad);
    if d.nbits <= |rem| {
      var z := d.nbits - nbits;
      assert rem[..d.nbits] == BitsOf(END, nbits) + Zeros(z);
      ValAppend(BitsOf(END, nbits), Zeros(z));
      ValZeros(z);
      Pow2Values();
      Pow2Mono(INIT_BITS, nbits);
      ValOfBits(END, nbits);
      assert Pow2(nbits) * Val(Zeros(z)) == 0;
      assert ReadCode(d.nbits, rem) == END;
    }
  }

  /** Decompressing what the compressor made of any nonempty input gives that input back,
      unless one of the phrases is longer than the stack. */
  lemma {:induction false} RoundTrip(t: Tables, bytes: seq<byte>, input: seq<byte>, choices: seq<Choice>)
    requires WfTables(t) && |input| == |choices| + 1 && ValidRun(input, choices)
    requires CompressedForm(bytes, input, choices)
    ensures Decode(t, bytes) == if AllFit(Phrases(input, choices)) then Ok(input) else StackOverrun
  {
    var pad: nat :| BytesBits(bytes[3..]) == FinalStream(input, choices) + Zeros(pad);
    AfterHeader(t, bytes);
    var e, stream := EncRun(input, choices), EncStream(input, choices);
    var d := Lockstep(t, input, choices);
    var last, tail := BitsOf(e.ent, e.nbits), BitsOf(END, e.nbits) + Zeros(pad);
    assert FinalStream(input, choices) + Zeros(pad) == (stream + last) + tail;
    EmittedFit(input, choices, e);
    if AllFit(Emitted(input, choices)) {
      PendingThenEnd(DecInit(t), stream, e, d, pad);
    } else {
      OverrunsLonger(DecInit(t), stream, last);
    }
  }

  lemma {:induction false} AfterHeader(t: Tables, bytes: seq<byte>)
    requires WfTables(t) && |bytes| >= 3 && bytes[..3] == [MAGIC0, MAGIC1, MAX_BITS]
    ensures Decode(t, bytes) == DecRun(DecInit(t), BytesBits(bytes[3..]))
  {
    assert bytes[0] == bytes[..3][0] && bytes[1] == bytes[..3][1] && bytes[2] == bytes[..3][2];
  }

  /** The pending code and END, read in step. */
  lemma {:induction false} PendingThenEnd(d0: Dec, stream: seq<bool>, e: Enc, d: Dec, pad: nat)
    requires Reaches(d0, stream, d) && Sync(e, d)
    ensures DecRun(d0, (stream + BitsOf(e.ent, e.nbits)) + (BitsOf(END, e.nbits) + Zeros(pad))) ==
            if |e.phrase| <= STACK_SIZE then Ok(d.out + e.phrase) else StackOverrun
  {
    EntIsData(e);
    ReachData(d0, stream, d, e.ent);
    if |e.phrase| <= STACK_SIZE {
      Receive(e, d);
      StopsAtEnd(DecStep(d, e.ent).value, e.nbits, pad);
    } else {
      ReceivedTooLong(e, d);
    }
  }

  lemma {:induction false} EntIsData(e: Enc)
    requires WfEnc(e)
    ensures e.ent < Pow2(e.nbits) && e.ent != END && e.ent != CLEAR
  {
    Pow2Values();
    Pow2Mono(INIT_BITS, e.nbits);
  }

  /** The decoder only ever adds to its output. */
  lemma {:induction false} OutputGrows(d: Dec, rem: seq<bool>)
    requires WfDec(d) && DecRun(d, rem).Ok?
    ensures d.out <= DecRun(d, rem).out
    ensures d.phase == First ==> d.out < DecRun(d, rem).out
    decreases |rem|
  {
    if |rem| >= d.nbits {
      var code, rest := ReadCode(d.nbits, rem), rem[d.nbits..];
      if code == CLEAR && d.phase == Main {
        OutputGrows(DecClear(d), rest);
      } else if !(code == END && d.phase == Main) {
        OutputGrows(DecStep(d, code).value, rest);
      }
    }
  }

  /** No compressed file decodes to the empty string, so an empty input cannot round trip. */
  lemma {:induction false} NeverDecodesToNothing(t: Tables, bytes: seq<byte>)
    requires WfTables(t)
    ensures Decode(t, bytes) != Ok([])
  {
    if Decode(t, bytes).Ok? {
      OutputGrows(DecInit(t), BytesBits(bytes[3..]));
    }
  }

  /** Whatever is decoded begins with the three bytes that the compressor writes; other beginnings are told apart. */
  lemma OnlyOwnFiles(t: Tables, bytes: seq<byte>)
    requires WfTables(t)
    ensures Decode(t, bytes) == BadMagic <==> !([0x1f, 0x9e] <= bytes)
    ensures Decode(t, bytes) == BadBits <==> [0x1f, 0x9e] <= bytes && !([0x1f, 0x9e, 14] <= bytes)
    ensures Decode(t, bytes).Ok? ==> [0x1f, 0x9e, 14] <= bytes
  {
    if |bytes| >= 2 { assert bytes[..2] == [bytes[0], bytes[1]]; }
    if |bytes| >= 3 {
      assert bytes[..3] == [bytes[0], bytes[1], bytes[2]];
      NeverRefused(DecInit(t), BytesBits(bytes[3..]));
    }
  }

  lemma {:induction false} NeverRefused(d: Dec, rem: seq<bool>)
    requires WfDec(d)
    ensures !DecRun(d, rem).BadMagic? && !DecRun(d, rem).BadBits?
    decreases |rem|
  {
    if |rem| >= d.nbits {
      var code, rest := ReadCode(d.nbits, rem), rem[d.nbits..];
      if code == CLEAR && d.phase == Main {
        NeverRefused(DecClear(d), rest);
      } else if code != END && DecStep(d, code).Some? {
        NeverRefused(DecStep(d, code).value, rest);
      } else if d.phase == AfterClear && DecStep(d, code).Some? {
        NeverRefused(DecStep(d, code).value, rest);
      }
    }
  }

  // ------------------------------------------------------------ how long phrases get

  /** 1 + 2 + ... + n */
  function Tri(n: nat): nat {
    if n == 0 then 0 else Tri(n - 1) + n
  }

  lemma {:induction false} TriClosed(n: nat)
    ensures 2 * Tri(n) == n * (n + 1)
  {
    if n > 0 {
      TriClosed(n - 1);
      assert n * (n + 1) == (n - 1) * n + 2 * n;
    }
  }

  lemma {:induction false} TriMono(m: nat, n: nat)
    requires m <= n
    ensures Tri(m) <= Tri(n)
    decreases n
  {
    if m < n { TriMono(m, n - 1); }
  }

  /** A string of length L costs at least 1 + 2 + ... + (L - 1) earlier input bytes. */
  ghost predicate StringsPaidFor(d: Dict, spent: int) {
    && WfDict(d)
    && forall code: nat :: Known(d, code) ==> Tri(|Str(d, code)| - 1) <= spent
  }

  lemma {:induction false} PaidForExtend(d: Dict, ent: Code, c: byte, spent: nat)
    requires StringsPaidFor(d, spent) && |d| < MAX_ENTRIES && Known(d, ent)
    ensures StringsPaidFor(d + [Entry(ent, c)], spent + |Str(d, ent)|)
  {
    var x := Entry(ent, c);
    var d', l := d + [x], |Str(d, ent)|;
    WfExtend(d, x);
    forall code: nat | Known(d', code)
      ensures Tri(|Str(d', code)| - 1) <= spent + l
    {
      if Known(d, code) {
        StrExtend(d, x, code);
      } else {
        StrExtend(d, x, ent);
        assert |Str(d', code)| == l + 1;
      }
    }
  }

  lemma {:induction false} EmptyPaidFor(spent: nat)
    ensures StringsPaidFor([], spent)
  {
    forall code: nat | Known([], code)
      ensures |Str([], code)| == 1
    {}
  }

  /** Every phrase of length L has consumed at least L(L+1)/2 input bytes when it is put out. */
  ghost predicate CostsCovered(input: seq<byte>, choices: seq<Choice>)
    requires |input| == |choices| + 1
  {
    var e := EncRun(input, choices);
    && WfEnc(e)
    && |e.phrase| <= |input|
    && StringsPaidFor(e.dict, |input| - |e.phrase|)
    && forall p :: p in Phrases(input, choices) ==> Tri(|p|) <= |input|
  }

  lemma {:induction false} PendingCovered(input: seq<byte>, choices: seq<Choice>)
    requires |input| == |choices| + 1
    requires var e := EncRun(input, choices);
             WfEnc(e) && |e.phrase| <= |input| && StringsPaidFor(e.dict, |input| - |e.phrase|)
    requires forall p :: p in Emitted(input, choices) ==> Tri(|p|) <= |input|
    ensures CostsCovered(input, choices)
  {
    var e := EncRun(input, choices);
    PendingCost(e, |input|);
    forall p | p in Phrases(input, choices) ensures Tri(|p|) <= |input| {
      if p !in Emitted(input, choices) { assert p == e.phrase; }
    }
  }

  lemma {:induction false} PendingCost(e: Enc, spent: nat)
    requires WfEnc(e) && |e.phrase| <= spent && StringsPaidFor(e.dict, spent - |e.phrase|)
    ensures Tri(|e.phrase|) <= spent
  {
    assert Tri(|Str(e.dict, e.ent)| - 1) <= spent - |e.phrase|;
  }

  lemma {:induction false} PhraseCost(input: seq<byte>, choices: seq<Choice>)
    requires |input| == |choices| + 1 && ValidRun(input, choices)
    ensures CostsCovered(input, choices)
    decreases |choices|
  {
    if choices == [] {
      Pow2Values();
      assert EncRun(input, choices) == EncInit(input[0]);
      EmptyPaidFor(0);
    } else {
      var n := |choices| - 1;
      var input0, choices0, c := input[..n + 1], choices[..n], input[n + 1];
      assert input == input0 + [c] && choices == choices0 + [choices[n]];
      RunSnoc(input0, choices0, c, choices[n]);
      PhraseCost(input0, choices0);
      var e := EncRun(input0, choices0);
      StepWf(e, c, choices[n]);
      match choices[n]
      case Hit(_) =>
      case Miss =>
        if |e.dict| < MAX_ENTRIES {
          PaidForExtend(e.dict, e.ent, c, |input0| - |e.phrase|);
        }
      case MissClear => EmptyPaidFor(|input0|);
    }
    PendingCovered(input, choices);
  }

  /** Over every run: codes are put out in the least width, from 9 bits up, that holds the newest code. */
  lemma WidthIsLeast(input: seq<byte>, choices: seq<Choice>)
    requires |input| == |choices| + 1 && ValidRun(input, choices)
    ensures var e := EncRun(input, choices); LeastWidth(e.nbits, FIRST + |e.dict| - 1)
  {
    PhraseCost(input, choices);
  }

  const LONGEST_SAFE := 32012000  // Tri(8001) - 1

  /** Inputs of up to 32012000 bytes never overrun the stack. */
  lemma {:induction false} StackSuffices(input: seq<byte>, choices: seq<Choice>)
    requires |input| == |choices| + 1 && ValidRun(input, choices)
    requires |input| <= LONGEST_SAFE
    ensures AllFit(Phrases(input, choices))
  {
    PhraseCost(input, choices);
    TriClosed(8001);
    var phrases := Phrases(input, choices);
    forall i | 0 <= i < |phrases|
      ensures |phrases[i]| <= STACK_SIZE
    {
      assert phrases[i] in phrases;
      if |phrases[i]| > STACK_SIZE {
        TriMono(8001, |phrases[i]|);
      }
    }
  }

  // ------------------------------------------------------------ the bound is tight

  /** The code of c^n when the entries are c^2, c^3, ... in order. */
  function PowerCode(c: byte, n: int): Code
    requires 1 <= n <= MAX_ENTRIES + 1
  {
    if n == 1 then c else FIRST + n - 2
  }

  ghost predicate PowersOnly(e: Enc, c: byte) {
    && |e.dict| <= MAX_ENTRIES
    && (forall i :: 0 <= i < |e.dict| ==> e.dict[i] == Entry(PowerCode(c, i + 1), c))
    && 1 <= |e.phrase| <= |e.dict| + 1
    && e.ent == PowerCode(c, |e.phrase|)
  }

  lemma {:induction false} PowersStep(e: Enc, c: byte, choice: Choice)
    requires c != 0 && PowersOnly(e, c) && |e.dict| < MAX_ENTRIES && ChoiceOk(e, c, choice)
    ensures PowersOnly(EncStep(e, c, choice), c)
    ensures Tri(|EncStep(e, c, choice).dict|) + |EncStep(e, c, choice).phrase| == Tri(|e.dict|) + |e.phrase| + 1
  {
    var k, l := |e.dict|, |e.phrase|;
    if l <= k {
      assert e.dict[l - 1] == Entry(e.ent, c);
      assert choice.Hit?;
      assert PowerCode(c, choice.code - FIRST + 1) == PowerCode(c, l);
    } else {
      assert Entry(e.ent, c) !in e.dict;
      assert choice == Miss;
    }
  }

  /** On one repeated nonzero byte the phrases have lengths 1, 2, 3, ... */
  lemma {:induction false} RepeatedByte(c: byte, input: seq<byte>, choices: seq<Choice>)
    requires c != 0 && |input| == |choices| + 1 && ValidRun(input, choices)
    requires forall i :: 0 <= i < |input| ==> input[i] == c
    requires |input| <= LONGEST_SAFE + 1
    ensures var e := EncRun(input, choices);
            PowersOnly(e, c) && |input| == Tri(|e.dict|) + |e.phrase|
    decreases |choices|
  {
    if choices == [] {
      assert EncRun(input, choices) == EncInit(c);
    } else {
      var n := |choices| - 1;
      var input0, choices0 := input[..n + 1], choices[..n];
      assert input == input0 + [c] && choices == choices0 + [choices[n]];
      RunSnoc(input0, choices0, c, choices[n]);
      RepeatedByte(c, input0, choices0);
      var e := EncRun(input0, choices0);
      TriClosed(8001);
      if |e.dict| > STACK_SIZE {
        TriMono(8001, |e.dict|);
      }
      PowersStep(e, c, choices[n]);
    }
  }

  lemma {:induction false} PendingLength(k: nat, l: nat)
    requires LONGEST_SAFE + 1 == Tri(k) + l && 1 <= l <= k + 1
    ensures l == STACK_SIZE + 1
  {
    TriClosed(8000);
    TriClosed(8001);
    if k < 8000 {
      TriMono(k + 1, 8000);
    } else if k > 8000 {
      TriMono(8001, k);
    }
  }

  /** 32012001 equal bytes make the decoder overrun its stack. */
  lemma {:induction false} StackBoundTight(t: Tables, c: byte, bytes: seq<byte>, input: seq<byte>, choices: seq<Choice>)
    requires WfTables(t) && c != 0
    requires |input| == LONGEST_SAFE + 1 == |choices| + 1 && ValidRun(input, choices)
    requires forall i :: 0 <= i < |input| ==> input[i] == c
    requires CompressedForm(bytes, input, choices)
    ensures Decode(t, bytes) == StackOverrun
  {
    RepeatedByte(c, input, choices);
    var e := EncRun(input, choices);
    PendingLength(|e.dict|, |e.phrase|);
    RoundTrip(t, bytes, input, choices);
    var phrases := Phrases(input, choices);
    assert phrases[|phrases| - 1] == e.phrase;
  }
}
