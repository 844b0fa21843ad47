/** The table-driven AUTODIN CRC-32 (`crc32.c`) and the bit-at-a-time reflected CRC it stands for. */
module Crc32 {

  const POLY: bv32 := 0xedb88320

  function Xor(a: bv32, b: bv32): bv32 { a ^ b }

  /** One bit: shift right, and reduce by the reflected polynomial when a one falls out. */
  function Step(x: bv32): bv32 {
    if x & 1 == 1 then (x >> 1) ^ POLY else x >> 1
  }

  function Eight<T>(f: T -> T, x: T): T { f(f(f(f(f(f(f(f(x)))))))) }

  /** `n` turns of the bit loop. */
  function Shift(x: bv32, n: nat): bv32
    decreases n, x
  {
    if n == 0 then x else Shift(Step(x), n - 1)
  }

  /** The reference: each byte is added to the low end and shifted out bit by bit. */
  function BitCrc(bytes: seq<bv8>, seed: bv32): bv32 {
    if bytes == [] then seed else Shift(Xor(BitCrc(bytes[..|bytes| - 1], seed), bytes[|bytes| - 1] as bv32), 8)
  }

  // ---------- the table, sixteen entries to a row ----------

  const ROW0: seq<bv32> := [
    0x00000000, 0x77073096, 0xee0e612c, 0x990951ba, 0x076dc419, 0x706af48f, 0xe963a535, 0x9e6495a3,
    0x0edb8832, 0x79dcb8a4, 0xe0d5e91e, 0x97d2d988, 0x09b64c2b, 0x7eb17cbd, 0xe7b82d07, 0x90bf1d91]
  const ROW1: seq<bv32> := [
    0x1db71064, 0x6ab020f2, 0xf3b97148, 0x84be41de, 0x1adad47d, 0x6ddde4eb, 0xf4d4b551, 0x83d385c7,
    0x136c9856, 0x646ba8c0, 0xfd62f97a, 0x8a65c9ec, 0x14015c4f, 0x63066cd9, 0xfa0f3d63, 0x8d080df5]
  const ROW2: seq<bv32> := [
    0x3b6e20c8, 0x4c69105e, 0xd56041e4, 0xa2677172, 0x3c03e4d1, 0x4b04d447, 0xd20d85fd, 0xa50ab56b,
    0x35b5a8fa, 0x42b2986c, 0xdbbbc9d6, 0xacbcf940, 0x32d86ce3, 0x45df5c75, 0xdcd60dcf, 0xabd13d59]
  const ROW3: seq<bv32> := [
    0x26d930ac, 0x51de003a, 0xc8d75180, 0xbfd06116, 0x21b4f4b5, 0x56b3c423, 0xcfba9599, 0xb8bda50f,
    0x2802b89e, 0x5f058808, 0xc60cd9b2, 0xb10be924, 0x2f6f7c87, 0x58684c11, 0xc1611dab, 0xb6662d3d]
  const ROW4: seq<bv32> := [
    0x76dc4190, 0x01db7106, 0x98d220bc, 0xefd5102a, 0x71b18589, 0x06b6b51f, 0x9fbfe4a5, 0xe8b8d433,
    0x7807c9a2, 0x0f00f934, 0x9609a88e, 0xe10e9818, 0x7f6a0dbb, 0x086d3d2d, 0x91646c97, 0xe6635c01]
  const ROW5: seq<bv32> := [
    0x6b6b51f4, 0x1c6c6162, 0x856530d8, 0xf262004e, 0x6c0695ed, 0x1b01a57b, 0x8208f4c1, 0xf50fc457,
    0x65b0d9c6, 0x12b7e950, 0x8bbeb8ea, 0xfcb9887c, 0x62dd1ddf, 0x15da2d49, 0x8cd37cf3, 0xfbd44c65]
  const ROW6: seq<bv32> := [
    0x4db26158, 0x3ab551ce, 0xa3bc0074, 0xd4bb30e2, 0x4adfa541, 0x3dd895d7, 0xa4d1c46d, 0xd3d6f4fb,
    0x4369e96a, 0x346ed9fc, 0xad678846, 0xda60b8d0, 0x44042d73, 0x33031de5, 0xaa0a4c5f, 0xdd0d7cc9]
  const ROW7: seq<bv32> := [
    0x5005713c, 0x270241aa, 0xbe0b1010, 0xc90c2086, 0x5768b525, 0x206f85b3, 0xb966d409, 0xce61e49f,
    0x5edef90e, 0x29d9c998, 0xb0d09822, 0xc7d7a8b4, 0x59b33d17, 0x2eb40d81, 0xb7bd5c3b, 0xc0ba6cad]
  const ROW8: seq<bv32> := [
    0xedb88320, 0x9abfb3b6, 0x03b6e20c, 0x74b1d29a, 0xead54739, 0x9dd277af, 0x04db2615, 0x73dc1683,
    0xe3630b12, 0x94643b84, 0x0d6d6a3e, 0x7a6a5aa8, 0xe40ecf0b, 0x9309ff9d, 0x0a00ae27, 0x7d079eb1]
  const ROW9: seq<bv32> := [
    0xf00f9344, 0x8708a3d2, 0x1e01f268, 0x6906c2fe, 0xf762575d, 0x806567cb, 0x196c3671, 0x6e6b06e7,
    0xfed41b76, 0x89d32be0, 0x10da7a5a, 0x67dd4acc, 0xf9b9df6f, 0x8ebeeff9, 0x17b7be43, 0x60b08ed5]
  const ROWA: seq<bv32> := [
    0xd6d6a3e8, 0xa1d1937e, 0x38d8c2c4, 0x4fdff252, 0xd1bb67f1, 0xa6bc5767, 0x3fb506dd, 0x48b2364b,
    0xd80d2bda, 0xaf0a1b4c, 0x36034af6, 0x41047a60, 0xdf60efc3, 0xa867df55, 0x316e8eef, 0x4669be79]
  const ROWB: seq<bv32> := [
    0xcb61b38c, 0xbc66831a, 0x256fd2a0, 0x5268e236, 0xcc0c7795, 0xbb0b4703, 0x220216b9, 0x5505262f,
    0xc5ba3bbe, 0xb2bd0b28, 0x2bb45a92, 0x5cb36a04, 0xc2d7ffa7, 0xb5d0cf31, 0x2cd99e8b, 0x5bdeae1d]
  const ROWC: seq<bv32> := [
    0x9b64c2b0, 0xec63f226, 0x756aa39c, 0x026d930a, 0x9c0906a9, 0xeb0e363f, 0x72076785, 0x05005713,
    0x95bf4a82, 0xe2b87a14, 0x7bb12bae, 0x0cb61b38, 0x92d28e9b, 0xe5d5be0d, 0x7cdcefb7, 0x0bdbdf21]
  const ROWD: seq<bv32> := [
    0x86d3d2d4, 0xf1d4e242, 0x68ddb3f8, 0x1fda836e, 0x81be16cd, 0xf6b9265b, 0x6fb077e1, 0x18b74777,
    0x88085ae6, 0xff0f6a70, 0x66063bca, 0x11010b5c, 0x8f659eff, 0xf862ae69, 0x616bffd3, 0x166ccf45]
  const ROWE: seq<bv32> := [
    0xa00ae278, 0xd70dd2ee, 0x4e048354, 0x3903b3c2, 0xa7672661, 0xd06016f7, 0x4969474d, 0x3e6e77db,
    0xaed16a4a, 0xd9d65adc, 0x40df0b66, 0x37d83bf0, 0xa9bcae53, 0xdebb9ec5, 0x47b2cf7f, 0x30b5ffe9]
  const ROWF: seq<bv32> := [
    0xbdbdf21c, 0xcabac28a, 0x53b39330, 0x24b4a3a6, 0xbad03605, 0xcdd70693, 0x54de5729, 0x23d967bf,
    0xb3667a2e, 0xc4614ab8, 0x5d681b02, 0x2a6f2b94, 0xb40bbe37, 0xc30c8ea1, 0x5a05df1b, 0x2d02ef8d]

  const TABLE: seq<seq<bv32>> :=
    [ROW0, ROW1, ROW2, ROW3, ROW4, ROW5, ROW6, ROW7, ROW8, ROW9, ROWA, ROWB, ROWC, ROWD, ROWE, ROWF]

  function Entry(y: bv8): bv32 { TABLE[(y >> 4) as int][(y & 15) as int] }

  // ---------- linearity ----------

  lemma XorDigits(a: bv32, b: bv32)
    ensures (a ^ b) >> 1 == (a >> 1) ^ (b >> 1)
    ensures (a ^ b) & 1 == (a & 1) ^ (b & 1)
    ensures (a & 1 == 0 || a & 1 == 1) && (b & 1 == 0 || b & 1 == 1)
  {
  }

  lemma XorRegroup(a: bv32, b: bv32, p: bv32)
    ensures (a ^ p) ^ (b ^ p) == a ^ b
    ensures (a ^ p) ^ b == (a ^ b) ^ p
    ensures a ^ (b ^ p) == (a ^ b) ^ p
  {
  }

  /** A shift step is linear over exclusive or. */
  lemma StepXor(a: bv32, b: bv32)
    ensures Step(a ^ b) == Step(a) ^ Step(b)
  {
    XorDigits(a, b);
    XorRegroup(a >> 1, b >> 1, POLY);
    if a & 1 == b & 1 {
      assert (a ^ b) & 1 == 0;
    } else {
      assert (a ^ b) & 1 == 1;
    }
  }

  /** Eight applications of a homomorphism are one. */
  lemma EightHom<T(!new)>(f: T -> T, op: (T, T) -> T, a: T, b: T)
    requires forall x, y :: f(op(x, y)) == op(f(x), f(y))
    ensures Eight(f, op(a, b)) == op(Eight(f, a), Eight(f, b))
  {
    var a2, b2 := f(f(a)), f(f(b));
    var a4, b4 := f(f(a2)), f(f(b2));
    var a6, b6 := f(f(a4)), f(f(b4));
    TwoHom(f, op, a, b);
    TwoHom(f, op, a2, b2);
    TwoHom(f, op, a4, b4);
    TwoHom(f, op, a6, b6);
  }

  lemma TwoHom<T(!new)>(f: T -> T, op: (T, T) -> T, a: T, b: T)
    requires forall x, y :: f(op(x, y)) == op(f(x), f(y))
    ensures f(f(op(a, b))) == op(f(f(a)), f(f(b)))
  {
    assert f(op(a, b)) == op(f(a), f(b));
    assert f(op(f(a), f(b))) == op(f(f(a)), f(f(b)));
  }

  /** Eight turns of the bit loop, unrolled. */
  lemma ShiftIsEight(x: bv32)
    ensures Shift(x, 8) == Eight(Step, x)
  {
    var x2 := Step(Step(x));
    var x4 := Step(Step(x2));
    var x6 := Step(Step(x4));
    ShiftTwo(x, 8);
    ShiftTwo(x2, 6);
    ShiftTwo(x4, 4);
    ShiftTwo(x6, 2);
  }

  lemma ShiftTwo(x: bv32, n: nat)
    requires n >= 2
    ensures Shift(x, n) == Shift(Step(Step(x)), n - 2)
  {
  }

  lemma ShiftXor(a: bv32, b: bv32)
    ensures Shift(Xor(a, b), 8) == Xor(Shift(a, 8), Shift(b, 8))
  {
    forall x, y ensures Step(Xor(x, y)) == Xor(Step(x), Step(y)) { StepXor(x, y); }
    EightHom(Step, Xor, a, b);
    ShiftIsEight(a);
    ShiftIsEight(b);
    ShiftIsEight(Xor(a, b));
  }

  // ---------- a whole byte at once ----------

  ghost predicate ShiftsZeros(f: bv32 -> bv32) {
    forall a: bv32 :: a & 1 == 0 ==> f(a) == a >> 1
  }

  lemma LowDigits(x: bv32)
    requires x & 0xff == 0
    ensures x & 1 == 0 && (x >> 1) & 1 == 0 && (x >> 2) & 1 == 0 && (x >> 3) & 1 == 0
    ensures (x >> 4) & 1 == 0 && (x >> 5) & 1 == 0 && (x >> 6) & 1 == 0 && (x >> 7) & 1 == 0
  {
  }

  lemma ShiftShift(x: bv32)
    ensures (x >> 1) >> 1 == x >> 2 && (x >> 2) >> 1 == x >> 3 && (x >> 3) >> 1 == x >> 4
    ensures (x >> 4) >> 1 == x >> 5 && (x >> 5) >> 1 == x >> 6 && (x >> 6) >> 1 == x >> 7 && (x >> 7) >> 1 == x >> 8
  {
  }

  /** Eight zero digits fall out without a reduction. */
  lemma EightZeros(f: bv32 -> bv32, x: bv32)
    requires ShiftsZeros(f) && x & 0xff == 0
    ensures Eight(f, x) == x >> 8
  {
    LowDigits(x);
    ShiftShift(x);
  }

  lemma ShiftZeros(x: bv32)
    requires x & 0xff == 0
    ensures Shift(x, 8) == x >> 8
  {
    EightZeros(Step, x);
    ShiftIsEight(x);
  }

  /** Only the low byte decides the reduction. */
  lemma ShiftLowByte(hi: bv32, lo: bv32)
    requires hi & 0xff == 0
    ensures Shift(Xor(hi, lo), 8) == Xor(hi >> 8, Shift(lo, 8))
  {
    ShiftXor(hi, lo);
    ShiftZeros(hi);
  }

  lemma Row0(y: bv8)
    requires y >> 4 == 0
    ensures Entry(y) == Eight(Step, y as bv32)
  {
    assert Entry(y) == ROW0[(y & 15) as int];
  }

  lemma Row1(y: bv8)
    requires y >> 4 == 1
    ensures Entry(y) == Eight(Step, y as bv32)
  {
    assert Entry(y) == ROW1[(y & 15) as int];
  }

  lemma Row2(y: bv8)
    requires y >> 4 == 2
    ensures Entry(y) == Eight(Step, y as bv32)
  {
    assert Entry(y) == ROW2[(y & 15) as int];
  }

  lemma Row3(y: bv8)
    requires y >> 4 == 3
    ensures Entry(y) == Eight(Step, y as bv32)
  {
    assert Entry(y) == ROW3[(y & 15) as int];
  }

  lemma Row4(y: bv8)
    requires y >> 4 == 4
    ensures Entry(y) == Eight(Step, y as bv32)
  {
    assert Entry(y) == ROW4[(y & 15) as int];
  }

  lemma Row5(y: bv8)
    requires y >> 4 == 5
    ensures Entry(y) == Eight(Step, y as bv32)
  {
    assert Entry(y) == ROW5[(y & 15) as int];
  }

  lemma Row6(y: bv8)
    requires y >> 4 == 6
    ensures Entry(y) == Eight(Step, y as bv32)
  {
    assert Entry(y) == ROW6[(y & 15) as int];
  }

  lemma Row7(y: bv8)
    requires y >> 4 == 7
    ensures Entry(y) == Eight(Step, y as bv32)
  {
    assert Entry(y) == ROW7[(y & 15) as int];
  }

  lemma Row8(y: bv8)
    requires y >> 4 == 8
    ensures Entry(y) == Eight(Step, y as bv32)
  {
    assert Entry(y) == ROW8[(y & 15) as int];
  }

  lemma Row9(y: bv8)
    requires y >> 4 == 9
    ensures Entry(y) == Eight(Step, y as bv32)
  {
    assert Entry(y) == ROW9[(y & 15) as int];
  }

  lemma RowA(y: bv8)
    requires y >> 4 == 10
    ensures Entry(y) == Eight(Step, y as bv32)
  {
    assert Entry(y) == ROWA[(y & 15) as int];
  }

  lemma RowB(y: bv8)
    requires y >> 4 == 11
    ensures Entry(y) == Eight(Step, y as bv32)
  {
    assert Entry(y) == ROWB[(y & 15) as int];
  }

  lemma RowC(y: bv8)
    requires y >> 4 == 12
    ensures Entry(y) == Eight(Step, y as bv32)
  {
    assert Entry(y) == ROWC[(y & 15) as int];
  }

  lemma RowD(y: bv8)
    requires y >> 4 == 13
    ensures Entry(y) == Eight(Step, y as bv32)
  {
    assert Entry(y) == ROWD[(y & 15) as int];
  }

  lemma RowE(y: bv8)
    requires y >> 4 == 14
    ensures Entry(y) == Eight(Step, y as bv32)
  {
    assert Entry(y) == ROWE[(y & 15) as int];
  }

  lemma RowF(y: bv8)
    requires y >> 4 == 15
    ensures Entry(y) == Eight(Step, y as bv32)
  {
    assert Entry(y) == ROWF[(y & 15) as int];
  }

  /** Every one of the 256 entries is what shifting its index out bit by bit gives. */
  lemma TableIsShift(y: bv8)
    ensures Entry(y) == Shift(y as bv32, 8)
  {
    ShiftIsEight(y as bv32);
    if y >> 4 == 0 { Row0(y); }
    else if y >> 4 == 1 { Row1(y); }
    else if y >> 4 == 2 { Row2(y); }
    else if y >> 4 == 3 { Row3(y); }
    else if y >> 4 == 4 { Row4(y); }
    else if y >> 4 == 5 { Row5(y); }
    else if y >> 4 == 6 { Row6(y); }
    else if y >> 4 == 7 { Row7(y); }
    else if y >> 4 == 8 { Row8(y); }
    else if y >> 4 == 9 { Row9(y); }
    else if y >> 4 == 10 { RowA(y); }
    else if y >> 4 == 11 { RowB(y); }
    else if y >> 4 == 12 { RowC(y); }
    else if y >> 4 == 13 { RowD(y); }
    else if y >> 4 == 14 { RowE(y); }
    else { RowF(y); }
  }

  lemma IndexByte(crc: bv32, b: bv8, y: bv8)
    requires y == b ^ ((crc & 0xff) as bv8)
    ensures Xor(crc, b as bv32) == Xor(crc & 0xffff_ff00, y as bv32)
    ensures (crc & 0xffff_ff00) & 0xff == 0
    ensures (crc & 0xffff_ff00) >> 8 == crc >> 8
  {
  }

  /** One turn of the table loop is eight turns of the bit loop. */
  lemma ByteStep(crc: bv32, b: bv8, y: bv8, e: bv32)
    requires y == b ^ ((crc & 0xff) as bv8)
    requires e == Shift(y as bv32, 8)
    ensures Shift(Xor(crc, b as bv32), 8) == Xor(crc >> 8, e)
  {
    IndexByte(crc, b, y);
    ShiftLowByte(crc & 0xffff_ff00, y as bv32);
  }

  /** `crc32`: the table loop computes the bit-at-a-time CRC for every buffer and seed. */
  method Crc(bytes: seq<bv8>, seed: bv32) returns (crc: bv32)
    ensures crc == BitCrc(bytes, seed)
  {
    crc := seed;
    var i := 0;
    while i < |bytes|
      invariant 0 <= i <= |bytes|
      invariant crc == BitCrc(bytes[..i], seed)
    {
      assert bytes[..i + 1][..i] == bytes[..i];
      var ch := bytes[i] ^ ((crc & 0xff) as bv8);
      var e := Entry(ch);
      TableIsShift(ch);
      ByteStep(crc, bytes[i], ch, e);
      crc := Xor(crc >> 8, e);
      i := i + 1;
    }
    assert bytes[..i] == bytes;
  }

  /** A running CRC is the seed for the rest: cutting a buffer anywhere changes nothing. */
  lemma {:induction false} Concatenates(a: seq<bv8>, b: seq<bv8>, seed: bv32)
    ensures BitCrc(a + b, seed) == BitCrc(b, BitCrc(a, seed))
  {
    if b == [] {
      assert a + b == a;
    } else {
      Concatenates(a, b[..|b| - 1], seed);
      assert (a + b)[..|a + b| - 1] == a + b[..|b| - 1];
    }
  }
}
