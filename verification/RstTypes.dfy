/** RST trace records, the fields of SPARC instruction words that rstzip looks at, and the
    typed units that the compressed stream is made of. */
module RstTypes {
  import opened Basics

  const TWO64 := 0x1_0000_0000_0000_0000

  function Wrap64(x: int): u64 {
    x % TWO64
  }

  lemma WrapAdd(x: int, y: int)
    ensures Wrap64(Wrap64(x) + y) == Wrap64(x + y)
  {
  }

  // ------------------------------------------------------------ rtypes and tags

  const INSTR_T := 3
  const REGVAL_T := 9
  const PREG_T := 17
  const PAVADIFF_T := 19

  const z_FOOTER_T := 161
  const z_INSTR_T := 162
  const zL_INSTR_T := 163
  const z0_PAVADIFF_T := 164  // ... to z7_PAVADIFF_T == 171
  const z_CCR_T := 172
  const z_REGID_T := 173
  const z_REGVAL_8_T := 174
  const z_REGVAL_16_T := 175
  const z_REGVAL_32_T := 176
  const z_REGVAL_64_T := 177
  const z_REGIDX_T := 178
  const z_VALUE_MINUS1_T := 179
  const z_VALUE_0_T := 180    // ... to z_VALUE_8_T == 188
  const z_REGPAIR_T := 189

  const RSTREG_INT_RT := 1
  const RSTREG_UNUSED_RT := 5
  const RSTREG_CC_RT := 6

  // ------------------------------------------------------------ records

  /**
   * `bits` and `payload` stand for fields that the codec copies without looking at them. The 13 unused bits of
   * a register record are not part of `Regval`: a compressed one comes back with whatever bits the record before
   * it left in the decompressor's buffer.
   */
  datatype Rec =
    | Instr(notused: bool, eaValid: bool, tr: bool, hpriv: bool, pr: bool, bt: bool, an: bool,
            word: u32, pc: u64, ea: u64)
    | Pavadiff(eaValid: bool, icontext: u16, dcontext: u16, bits: nat, pcPaVa: u64, eaPaVa: u64)
    | Regval(postInstr: bool, type0: byte, id0: byte, val0: u64, type1: byte, id1: byte, val1: u64)
    | Preg(pstate: u16, payload: nat)
    | Other(rtype: byte, payload: nat)

  function RType(r: Rec): byte {
    match r
    case Instr(_, _, _, _, _, _, _, _, _, _) => INSTR_T
    case Pavadiff(_, _, _, _, _, _) => PAVADIFF_T
    case Regval(_, _, _, _, _, _, _) => REGVAL_T
    case Preg(_, _) => PREG_T
    case Other(rtype, _) => rtype
  }

  /** Record types below 160 that have no constructor of their own. */
  predicate WfRec(r: Rec) {
    r.Other? ==> r.rtype < 160 && r.rtype !in {INSTR_T, REGVAL_T, PREG_T, PAVADIFF_T}
  }

  // ------------------------------------------------------------ instruction words

  /** `span` bits of an instruction word from bit `lo` up. */
  function Field(w: nat, lo: nat, span: nat): nat
    decreases lo, w
  {
    if lo > 0 then Field(w / 2, lo - 1, span)
    else if span == 0 then 0
    else w % 2 + 2 * LowField(w / 2, span - 1)
  }

  function LowField(w: nat, span: nat): nat
    decreases span, w
  {
    if span == 0 then 0 else w % 2 + 2 * LowField(w / 2, span - 1)
  }

  predicate IsBpcc(w: u32) { Field(w, 30, 2) == 0 && Field(w, 22, 3) == 1 }
  predicate IsBicc(w: u32) { Field(w, 30, 2) == 0 && Field(w, 22, 3) == 2 }
  predicate IsFbpfcc(w: u32) { Field(w, 30, 2) == 0 && Field(w, 22, 3) == 5 }
  predicate IsFbfcc(w: u32) { Field(w, 30, 2) == 0 && Field(w, 22, 3) == 6 }
  predicate IsBpr(w: u32) {
    Field(w, 30, 2) == 0 && Field(w, 28, 1) == 0 && Field(w, 22, 3) == 3 && Field(w, 25, 2) != 0
  }
  predicate IsCall(w: u32) { Field(w, 30, 2) == 1 }

  predicate IsPcRelativeCti(w: u32) {
    IsBpr(w) || IsFbfcc(w) || IsFbpfcc(w) || IsBicc(w) || IsBpcc(w) || IsCall(w)
  }

  function SignExt(x: int, bits: nat): int
    requires bits > 0
  {
    if x >= Pow2(bits - 1) then x - Pow2(bits) else x
  }

  /** The byte displacement of a taken pc-relative transfer, in the source's order of tests. */
  function Displacement(w: u32): int {
    if IsBpr(w) then 4 * SignExt(Field(w, 20, 2) * Pow2(14) + Field(w, 0, 14), 16)
    else if IsBicc(w) || IsFbfcc(w) then 4 * SignExt(Field(w, 0, 22), 22)
    else if IsBpcc(w) || IsFbpfcc(w) then 4 * SignExt(Field(w, 0, 19), 19)
    else 4 * SignExt(Field(w, 0, 30), 30)
  }

  /** carry_ea: the effective address has to be stored. */
  predicate CarryEa(w: u32, eaValid: bool) {
    eaValid && !IsPcRelativeCti(w)
  }

  /** The effective address that the decompressor works out when none is stored. */
  function DerivedEa(w: u32, pc: u64, an: bool, bt: bool, am: bool): u64 {
    if !an && IsPcRelativeCti(w) then
      if bt then
        var ea := Wrap64(pc + Displacement(w));
        if am then ea % 0x1_0000_0000 else ea
      else Wrap64(pc + 8)
    else 0
  }

  /** The destination register field. */
  function Rd(w: u32): (rd: byte)
    ensures rd < 32
  {
    (w / 0x200_0000) % 32
  }

  /** PSTATE.AM */
  predicate AddressMask(pstate: u16) {
    (pstate / 8) % 2 == 1
  }

  // ------------------------------------------------------------ the stream

  /** One memcpy to or from the compressed buffer. */
  datatype Unit =
    | Raw(rec: Rec)
    | B(b: byte)
    | H(h: u16)
    | W(w: u32)
    | L(d: u64)
    | C(rtype: byte, n: u16, pc: u64)  // the three pieces of a chunk header

  type Stream = seq<Unit>

  /** The byte that *inbuf_ptr shows; multi-byte numbers are stored in machine order. */
  function Lead(u: Unit, bigEndian: bool): byte {
    match u
    case Raw(rec) => RType(rec)
    case B(b) => b
    case H(h) => if bigEndian then h / 0x100 else h % 0x100
    case W(w) => if bigEndian then w / 0x100_0000 else w % 0x100
    case C(rtype, _, _) => rtype
    case L(d) => if bigEndian then d / 0x100_0000_0000_0000 else d % 0x100
  }
}
