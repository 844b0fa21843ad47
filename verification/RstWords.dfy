/** Instruction words by their opcode fields: which instructions have their address stored, where a transfer goes, and
    so, field by field, what comes back for every record. */
module RstWords {
  import opened Basics
  import opened Bits
  import opened RstTypes
  import opened RstCodec
  import opened RstRoundTrip

  // ------------------------------------------------------------ fields

  lemma {:induction false} LowFieldIs(q: nat, m: nat, span: nat, w: nat)
    requires w == q * Pow2(span) + m && m < Pow2(span)
    ensures LowField(w, span) == m
    decreases span
  {
    if span > 0 {
      var t := q * Pow2(span - 1);
      assert q * Pow2(span) == 2 * t;
      assert w / 2 == t + m / 2 && w % 2 == m % 2;
      LowFieldIs(q, m / 2, span - 1, w / 2);
    }
  }

  lemma {:induction false} FieldAbove(hi: nat, low: nat, lo: nat, span: nat, w: nat)
    requires w == hi * Pow2(lo) + low && low < Pow2(lo)
    ensures Field(w, lo, span) == LowField(hi, span)
    decreases lo
  {
    if lo > 0 {
      var t := hi * Pow2(lo - 1);
      assert hi * Pow2(lo) == 2 * t;
      assert w / 2 == t + low / 2;
      FieldAbove(hi, low / 2, lo - 1, span, w / 2);
    }
  }

  /** The `m` between `q` above it and `low` below. */
  lemma FieldIs(q: nat, m: nat, low: nat, lo: nat, span: nat, w: nat)
    requires w == (q * Pow2(span) + m) * Pow2(lo) + low && m < Pow2(span) && low < Pow2(lo)
    ensures Field(w, lo, span) == m
  {
    var hi := q * Pow2(span) + m;
    FieldAbove(hi, low, lo, span, w);
    LowFieldIs(q, m, span, hi);
  }

  lemma FieldAt(w: nat, p: nat, s: nat, lo: nat, span: nat)
    requires p == Pow2(lo) && s == Pow2(span)
    ensures Field(w, lo, span) == w / p % s
  {
    var hi := w / p;
    Divided(w, p);
    Divided(hi, s);
    FieldIs(hi / s, hi % s, w % p, lo, span, w);
  }

  lemma Divided(x: nat, d: nat)
    requires d > 0
    ensures 0 <= x / d && 0 <= x % d < d && x == x / d * d + x % d
  {
  }

  lemma Powers()
    ensures Pow2(1) == 2 && Pow2(2) == 4 && Pow2(3) == 8 && Pow2(15) == 0x8000 && Pow2(16) == 0x1_0000
    ensures Pow2(18) == 0x4_0000 && Pow2(19) == 0x8_0000 && Pow2(20) == 0x10_0000 && Pow2(21) == 0x20_0000
    ensures Pow2(22) == 0x40_0000 && Pow2(25) == 0x200_0000 && Pow2(28) == 0x1000_0000 && Pow2(29) == 0x2000_0000
    ensures Pow2(30) == 0x4000_0000 && Pow2(14) == 0x4000
  {
    assert Pow2(14) == 0x4000 by { Pow2Values(); }
    assert Pow2(18) == 0x4_0000;
    assert Pow2(22) == 0x40_0000;
    assert Pow2(25) == 0x200_0000;
    assert Pow2(28) == 0x1000_0000;
  }

  /** The fields that tell transfers apart, as numbers. */
  lemma OpcodeFields(w: u32)
    ensures Field(w, 30, 2) == w / 0x4000_0000 && Field(w, 22, 3) == w / 0x40_0000 % 8
    ensures Field(w, 28, 1) == w / 0x1000_0000 % 2 && Field(w, 25, 2) == w / 0x200_0000 % 4
  {
    Powers();
    FieldAt(w, 0x4000_0000, 4, 30, 2);
    FieldAt(w, 0x40_0000, 8, 22, 3);
    FieldAt(w, 0x1000_0000, 2, 28, 1);
    FieldAt(w, 0x200_0000, 4, 25, 2);
  }

  /** The pc-relative transfers of appendix A.3 to A.8 of The SPARC Architecture Manual, version 9: op 1 is CALL; under
      op 0, op2 1 and 2 are the integer branches, 5 and 6 the floating-point ones, and 3 the branch on a register, which
      has bit 28 clear and a condition whose low two bits are not both clear. */
  predicate TransfersByPc(w: u32) {
    var op, op2 := w / 0x4000_0000, w / 0x40_0000 % 8;
    || op == 1
    || (op == 0 && op2 in {1, 2, 5, 6})
    || (op == 0 && op2 == 3 && w / 0x1000_0000 % 2 == 0 && w / 0x200_0000 % 4 != 0)
  }

  /** An address is stored exactly for the other instructions that have one: loads, stores and register jumps. */
  lemma CarriedByOpcode(w: u32, eaValid: bool)
    ensures CarryEa(w, eaValid) <==> eaValid && !TransfersByPc(w)
    ensures w >= 0x8000_0000 ==> (CarryEa(w, eaValid) <==> eaValid)
  {
    OpcodeFields(w);
  }

  // ------------------------------------------------------------ where transfers go

  /** An address under PSTATE.AM. */
  function Masked(x: int, am: bool): u64 {
    if am then x % 0x1_0000_0000 else x % TWO64
  }

  lemma MaskWrap(x: int)
    ensures Wrap64(x) % 0x1_0000_0000 == x % 0x1_0000_0000
  {
  }

  /** A transfer that is taken and not annulled goes to its displacement from the pc; one that is not taken, past its
      delay slot; an annulled one, and any other instruction without a stored address, has none. */
  lemma DerivedAddress(w: u32, pc: u64, an: bool, bt: bool, am: bool)
    ensures DerivedEa(w, pc, an, bt, am) ==
            if an || !TransfersByPc(w) then 0 else if bt then Masked(pc + Displacement(w), am) else (pc + 8) % TWO64
  {
    CarriedByOpcode(w, true);
    MaskWrap(pc + Displacement(w));
  }

  /** A displacement of `n` bits, read back with its sign. */
  lemma Signs(disp: int, h: int, m: int, n: nat)
    requires n > 0 && h == Pow2(n - 1) && m == 2 * h && -h <= disp < h
    ensures SignExt(disp % m, n) == disp
  {
    if disp < 0 { DivModUnique(disp, m, -1, disp + m); } else { DivModUnique(disp, m, 0, disp); }
  }

  /** CALL: 30 bits. */
  lemma CallTarget(w: u32, disp: int)
    requires -0x2000_0000 <= disp < 0x2000_0000 && w == 0x4000_0000 + disp % 0x4000_0000
    ensures TransfersByPc(w) && Displacement(w) == 4 * disp
  {
    Powers();
    OpcodeFields(w);
    FieldIs(1, disp % 0x4000_0000, 0, 0, 30, w);
    Signs(disp, 0x2000_0000, 0x4000_0000, 30);
  }

  /** The fields of a branch: op 0, five bits `c` of annulling and condition, op2, and 22 bits. */
  lemma BranchFields(w: u32, c: nat, op2: nat, rest: nat)
    requires c < 32 && op2 < 8 && rest < 0x40_0000 && w == c * 0x200_0000 + op2 * 0x40_0000 + rest
    ensures Field(w, 30, 2) == 0 && Field(w, 22, 3) == op2
    ensures Field(w, 28, 1) == c / 8 % 2 && Field(w, 25, 2) == c % 4
  {
    OpcodeFields(w);
    assert w / 0x40_0000 == 8 * c + op2;
    assert w / 0x200_0000 == c;
    assert w / 0x1000_0000 == c / 8;
  }

  lemma BranchIs(w: u32, op2: nat)
    requires Field(w, 30, 2) == 0 && Field(w, 22, 3) == op2
    requires op2 == 1 || op2 == 2 || op2 == 5 || op2 == 6
    ensures TransfersByPc(w)
    ensures Displacement(w) == if op2 == 2 || op2 == 6 then 4 * SignExt(Field(w, 0, 22), 22)
                               else 4 * SignExt(Field(w, 0, 19), 19)
  {
    OpcodeFields(w);
  }

  /** Bicc and FBfcc: 22 bits; `c` is the annul bit and the condition. */
  lemma BranchTarget(w: u32, c: nat, op2: nat, disp: int)
    requires c < 32 && (op2 == 2 || op2 == 6) && -0x20_0000 <= disp < 0x20_0000
    requires w == c * 0x200_0000 + op2 * 0x40_0000 + disp % 0x40_0000
    ensures TransfersByPc(w) && Displacement(w) == 4 * disp
  {
    var d := disp % 0x40_0000;
    BranchFields(w, c, op2, d);
    BranchIs(w, op2);
    LowestBits(w, 8 * c + op2, d, 0x40_0000, 22);
    Powers();
    Signs(disp, 0x20_0000, 0x40_0000, 22);
  }

  lemma LowestBits(w: nat, q: nat, d: nat, p: nat, n: nat)
    requires (n == 14 && p == 0x4000) || (n == 19 && p == 0x8_0000) || (n == 22 && p == 0x40_0000)
    requires w == q * p + d && d < p
    ensures Field(w, 0, n) == d
  {
    Powers();
    FieldIs(q, d, 0, 0, n, w);
  }

  /** BPcc and FBPfcc: 19 bits below the condition codes and the prediction bit `p`. */
  lemma PredictedTarget(w: u32, c: nat, op2: nat, p: nat, disp: int)
    requires c < 32 && (op2 == 1 || op2 == 5) && p < 8 && -0x4_0000 <= disp < 0x4_0000
    requires w == c * 0x200_0000 + op2 * 0x40_0000 + p * 0x8_0000 + disp % 0x8_0000
    ensures TransfersByPc(w) && Displacement(w) == 4 * disp
  {
    var d := disp % 0x8_0000;
    var rest: nat := p * 0x8_0000 + d;
    BranchFields(w, c, op2, rest);
    BranchIs(w, op2);
    LowestBits(w, 64 * c + 8 * op2 + p, d, 0x8_0000, 19);
    Powers();
    Signs(disp, 0x4_0000, 0x8_0000, 19);
  }

  /** BPr: 16 bits in two pieces, the upper two above the prediction bit and the register `r`. */
  lemma RegisterTarget(w: u32, a: nat, cond: nat, hi: nat, r: nat, low: nat, disp: int)
    requires a < 2 && cond < 8 && cond % 4 != 0 && r < 64 && -0x8000 <= disp < 0x8000
    requires hi < 4 && low < 0x4000 && disp % 0x1_0000 == hi * 0x4000 + low
    requires w == a * 0x2000_0000 + cond * 0x200_0000 + 3 * 0x40_0000 + hi * 0x10_0000 + r * 0x4000 + low
    ensures TransfersByPc(w) && Displacement(w) == 4 * disp
  {
    var c: nat := 16 * a + cond;
    BranchFields(w, c, 3, hi * 0x10_0000 + r * 0x4000 + low);
    CondBits(a, cond, c);
    RegisterBranch(w);
    Powers();
    FieldIs(8 * c + 3, hi, r * 0x4000 + low, 20, 2, w);
    LowestBits(w, 64 * (4 * (8 * c + 3) + hi) + r, low, 0x4000, 14);
    Signs(disp, 0x8000, 0x1_0000, 16);
  }

  lemma CondBits(a: nat, cond: nat, c: nat)
    requires a < 2 && cond < 8 && c == 16 * a + cond
    ensures c / 8 % 2 == 0 && c % 4 == cond % 4
  {
  }

  lemma RegisterBranch(w: u32)
    requires Field(w, 30, 2) == 0 && Field(w, 22, 3) == 3 && Field(w, 28, 1) == 0 && Field(w, 25, 2) != 0
    ensures TransfersByPc(w)
    ensures Displacement(w) == 4 * SignExt(Field(w, 20, 2) * Pow2(14) + Field(w, 0, 14), 16)
  {
    OpcodeFields(w);
  }

  // ------------------------------------------------------------ other fields that the codec goes by

  /** The destination register of an instruction of any format, by its place in the word. */
  lemma DestinationField(w: u32, op: nat, rd: nat, rest: nat)
    requires rd < 32 && rest < 0x200_0000 && w == op * 0x4000_0000 + rd * 0x200_0000 + rest
    ensures Rd(w) == rd
  {
    assert w / 0x200_0000 == 32 * op + rd;
  }

  /** PSTATE.AM is bit 3. */
  lemma MaskBit(pstate: u16, above: nat, bit: nat, below: nat)
    requires bit < 2 && below < 8 && pstate == 16 * above + 8 * bit + below
    ensures AddressMask(pstate) <==> bit == 1
  {
    assert pstate / 8 == 2 * above + bit;
  }

  // ------------------------------------------------------------ what comes back, field by field

  /** The instruction that comes back, by the fields of its word. A load, store or register jump comes back with its
      own address. */
  lemma InstructionBack(a: Rec, b: Rec, am: bool)
    requires a.Instr? && RecEq(a, b, am)
    ensures b == a.(notused := false, hpriv := false, ea := b.ea)
    ensures a.eaValid && a.word >= 0x8000_0000 ==> b.ea == a.ea
    ensures b.ea == if !TransfersByPc(a.word) then (if a.eaValid then a.ea else 0)
                    else if a.an then 0
                    else if a.bt then Masked(a.pc + Displacement(a.word), am)
                    else (a.pc + 8) % TWO64
  {
    CarriedByOpcode(a.word, a.eaValid);
    DerivedAddress(a.word, a.pc, a.an, a.bt, am);
  }

  /** Type 1 are the integer registers, 5 no register, 6 the condition codes. A record of an integer register and one of
      these three keeps what it says of the registers; any other comes back as it was. */
  lemma RegisterBack(a: Rec, b: Rec, am: bool)
    requires a.Regval? && RecEq(a, b, am)
    ensures a.type0 == 1 && a.type1 == 1 ==> b == a.(postInstr := true)
    ensures a.type0 == 1 && a.type1 == 5 ==> b == a.(postInstr := true, id1 := 0, val1 := 0)
    ensures a.type0 == 1 && a.type1 == 6 ==> b == a.(postInstr := true, val1 := 0)
    ensures a.type0 != 1 || a.type1 !in {1, 5, 6} ==> b == a
  {
  }

  /** Every other record comes back as it was, but for the address difference of a pavadiff record
      that has no address. */
  lemma OtherBack(a: Rec, b: Rec, am: bool)
    requires !a.Instr? && !a.Regval? && RecEq(a, b, am)
    ensures a.Pavadiff? && !a.eaValid ==> b.Pavadiff? && b == a.(eaPaVa := b.eaPaVa)
    ensures !a.Pavadiff? || a.eaValid ==> b == a
  {
  }

  /** In a trace that has come back, every record has, under the PSTATE.AM of its place. */
  lemma {:induction false} EachBack(a: seq<Rec>, b: seq<Rec>, am: bool, i: nat)
    requires TraceEq(a, b, am) && i < |a|
    ensures i < |b| && RecEq(a[i], b[i], AmAfterAll(am, a[..i]))
    decreases i
  {
    if i > 0 {
      EachBack(a[1..], b[1..], AmAfter(am, a[0]), i - 1);
      assert a[..i][1..] == a[1..][..i - 1];
    }
  }

  /** That PSTATE.AM is the one of the last register record before the place that sets it. */
  lemma {:induction false} MaskInForce(am: bool, rs: seq<Rec>, k: int)
    requires -1 <= k < |rs| && (k >= 0 ==> rs[k].Preg?) && forall j :: k < j < |rs| ==> !rs[j].Preg?
    ensures AmAfterAll(am, rs) == if k == -1 then am else AddressMask(rs[k].pstate)
    decreases |rs|
  {
    if rs != [] {
      assert forall j :: 0 < j < |rs| ==> rs[j] == rs[1..][j - 1];
      MaskInForce(AmAfter(am, rs[0]), rs[1..], if k >= 1 then k - 1 else -1);
    }
  }

  /** So a trace that comes back gives every load, store and register jump its own address. */
  lemma AddressesBack(a: seq<Rec>, b: seq<Rec>, am: bool, i: nat)
    requires TraceEq(a, b, am) && i < |a| && a[i].Instr? && a[i].eaValid && a[i].word >= 0x8000_0000
    ensures i < |b| && b[i] == a[i].(notused := false, hpriv := false)
  {
    EachBack(a, b, am, i);
    InstructionBack(a[i], b[i], AmAfterAll(am, a[..i]));
  }
}
