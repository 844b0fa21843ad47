/** The offset code for effective addresses of loop chunks: an address is stored as its
    distance from the address in the table, in 8, 16, 32 or 64 bits. Four byte values are
    reserved to announce the wider forms and an escaped 8-bit one. */
module EaCode {
  import opened Basics
  import opened RstTypes

  const RESERVED_8 := -125
  const RESERVED_16 := -123
  const RESERVED_32 := 123
  const RESERVED_64 := 125

  /** A bit pattern of `m` values read as a signed number. */
  function Signed(x: int, m: int): int
    requires m > 0
  {
    if x >= m / 2 then x - m else x
  }

  /** offset64 = ea - base in 64-bit arithmetic, as a signed number. */
  function Offset(ea: u64, base: u64): (o: int)
    ensures -0x8000_0000_0000_0000 <= o < 0x8000_0000_0000_0000
  {
    Signed(Wrap64(ea - base), TWO64)
  }

  predicate Reserved(o: int) {
    o == RESERVED_8 || o == RESERVED_16 || o == RESERVED_32 || o == RESERVED_64
  }

  function PutOffset(o: int): (s: Stream)
    requires -0x8000_0000_0000_0000 <= o < 0x8000_0000_0000_0000
    ensures |s| >= 1 && s[0].B?
  {
    if -0x80 <= o < 0x80 then
      (if Reserved(o) then [B(RESERVED_8 % 0x100)] else []) + [B(o % 0x100)]
    else if -0x8000 <= o < 0x8000 then [B(RESERVED_16 % 0x100), H(o % 0x1_0000)]
    else if -0x8000_0000 <= o < 0x8000_0000 then [B(RESERVED_32), W(o % 0x1_0000_0000)]
    else [B(RESERVED_64), L(o % TWO64)]
  }

  datatype Res<T> = Bad | Good(val: T, rest: Stream)

  function GetOffset(s: Stream): (r: Res<int>)
    ensures r.Good? ==> |r.rest| < |s|
  {
    if s == [] || !s[0].B? then Bad
    else
      var o := Signed(s[0].b, 0x100);
      if o == RESERVED_8 then
        if |s| > 1 && s[1].B? then Good(Signed(s[1].b, 0x100), s[2..]) else Bad
      else if o == RESERVED_16 then
        if |s| > 1 && s[1].H? then Good(Signed(s[1].h, 0x1_0000), s[2..]) else Bad
      else if o == RESERVED_32 then
        if |s| > 1 && s[1].W? then Good(Signed(s[1].w, 0x1_0000_0000), s[2..]) else Bad
      else if o == RESERVED_64 then
        if |s| > 1 && s[1].L? then Good(Signed(s[1].d, TWO64), s[2..]) else Bad
      else Good(o, s[1..])
  }

  /** The code is self-delimiting and loses nothing, reserved values included. */
  lemma OffsetRoundTrip(o: int, rest: Stream)
    requires -0x8000_0000_0000_0000 <= o < 0x8000_0000_0000_0000
    ensures GetOffset(PutOffset(o) + rest) == Good(o, rest)
  {
    var s := PutOffset(o) + rest;
    if -0x80 <= o < 0x80 {
      if Reserved(o) {
        assert s[2..] == rest;
      } else {
        assert s[1..] == rest;
      }
    } else {
      assert s[2..] == rest;
    }
  }

  /** Adding the signed distance back gives the address modulo 2^64. */
  lemma OffsetAddsBack(ea: u64, base: u64)
    ensures Wrap64(base + Offset(ea, base)) == ea
  {
  }

  /** table->ea_buf[i]; reading past the allocation is excluded by the callers' conditions. */
  function BaseAt(bases: seq<u64>, i: nat): u64 {
    if i < |bases| then bases[i] else 0
  }

  function PutEas(eas: seq<u64>, bases: seq<u64>, from: nat): Stream
    decreases |eas|
  {
    if eas == [] then []
    else PutOffset(Offset(eas[0], BaseAt(bases, from))) + PutEas(eas[1..], bases, from + 1)
  }

  function GetEas(n: nat, bases: seq<u64>, from: nat, s: Stream): (r: Res<seq<u64>>)
    ensures r.Good? ==> |r.val| == n && |r.rest| <= |s|
    decreases n
  {
    if n == 0 then Good([], s)
    else
      match GetOffset(s)
      case Bad => Bad
      case Good(o, s1) =>
        match GetEas(n - 1, bases, from + 1, s1)
        case Bad => Bad
        case Good(eas, s2) => Good([Wrap64(BaseAt(bases, from) + o)] + eas, s2)
  }

  /** For every list of addresses and every list of bases. */
  lemma {:induction false} EasRoundTrip(eas: seq<u64>, bases: seq<u64>, from: nat, rest: Stream)
    ensures GetEas(|eas|, bases, from, PutEas(eas, bases, from) + rest) == Good(eas, rest)
    decreases |eas|
  {
    if eas == [] {
      assert PutEas(eas, bases, from) + rest == rest;
    } else {
      var base := BaseAt(bases, from);
      var o := Offset(eas[0], base);
      var tail := PutEas(eas[1..], bases, from + 1);
      assert PutEas(eas, bases, from) + rest == PutOffset(o) + (tail + rest);
      OffsetRoundTrip(o, tail + rest);
      OffsetAddsBack(eas[0], base);
      EasRoundTrip(eas[1..], bases, from + 1, rest);
      assert eas == [eas[0]] + eas[1..];
    }
  }
}
