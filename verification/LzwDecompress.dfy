/** decomp.c: the decompressor with its globals as fields, proved to compute Decode. */
module LzwDecompress {
  import opened Basics
  import opened Bits
  import opened LzwFormat

  /** A stack popped to the bottom gives its bytes in this order. */
  function Popped(s: seq<byte>): (r: seq<byte>)
    ensures |r| == |s|
  {
    if s == [] then [] else [s[|s| - 1]] + Popped(s[..|s| - 1])
  }

  /** The string on the stack `s` completed by expanding `code` in the space that is left. */
  function Completed(prefix: seq<Code>, suffix: seq<byte>, code: Code, s: seq<byte>): Option<seq<byte>>
    requires |prefix| == HSIZE && |suffix| == HSIZE && |s| <= STACK_SIZE
  {
    match Expand(prefix, suffix, code, STACK_SIZE - |s|)
    case None => None
    case Some(x) => Some(x + Popped(s))
  }

  lemma {:induction false} PushLink(prefix: seq<Code>, suffix: seq<byte>, code: Code, s: seq<byte>)
    requires |prefix| == HSIZE && |suffix| == HSIZE && |s| < STACK_SIZE && code >= 256
    ensures Completed(prefix, suffix, code, s) == Completed(prefix, suffix, prefix[code], s + [suffix[code]])
  {
    var s' := s + [suffix[code]];
    assert s'[..|s'| - 1] == s;
    match Expand(prefix, suffix, prefix[code], STACK_SIZE - |s| - 1)
    case None =>
    case Some(x) => AppendAssoc(x, [suffix[code]], Popped(s));
  }

  lemma {:induction false} PushLiteral(prefix: seq<Code>, suffix: seq<byte>, code: Code, s: seq<byte>)
    requires |prefix| == HSIZE && |suffix| == HSIZE && |s| < STACK_SIZE && code < 256
    ensures Completed(prefix, suffix, code, s) == Some(Popped(s + [suffix[code]]))
  {
    var s' := s + [suffix[code]];
    assert s'[..|s'| - 1] == s;
  }

  lemma {:induction false} EmptyStack(prefix: seq<Code>, suffix: seq<byte>, code: Code)
    requires |prefix| == HSIZE && |suffix| == HSIZE
    ensures Completed(prefix, suffix, code, []) == Expand(prefix, suffix, code, STACK_SIZE)
  {
    match Expand(prefix, suffix, code, STACK_SIZE)
    case None =>
    case Some(x) => assert x + Popped([]) == x;
  }

  lemma {:induction false} KwKwKStack(prefix: seq<Code>, suffix: seq<byte>, code: Code, c: byte)
    requires |prefix| == HSIZE && |suffix| == HSIZE
    ensures Completed(prefix, suffix, code, [c]) ==
            match Expand(prefix, suffix, code, STACK_SIZE - 1) case None => None case Some(x) => Some(x + [c])
  {
    assert [c][..0] == [];
    assert Popped([c]) == [c];
  }

  /** The bits not yet handed out as codes. */
  function Unread(oldcode: nat, offset: nat, rest: seq<byte>): seq<bool> {
    BitsOf(oldcode, offset) + BytesBits(rest)
  }

  lemma {:induction false} TakeByte(taken: seq<bool>, rest: seq<byte>)
    requires rest != []
    ensures taken + BytesBits(rest) == (taken + BitsOf(rest[0], 8)) + BytesBits(rest[1..])
  {
    assert rest == [rest[0]] + rest[1..];
    BytesBitsAppend([rest[0]], rest[1..]);
    BytesBitsOne(rest[0]);
    AppendAssoc(taken, BitsOf(rest[0], 8), BytesBits(rest[1..]));
  }

  lemma {:induction false} ByteValue(c: byte, w: nat)
    requires w == 8
    ensures Val(BitsOf(c, w)) == c
  {
    Pow2Values();
    ValOfBits(c, w);
  }

  /** One more byte above the bits taken so far. */
  lemma {:induction false} TakeOne(taken: seq<bool>, rest: seq<byte>, acc: nat, p: nat)
    requires rest != [] && acc == Val(taken) && p == Pow2(|taken|)
    ensures taken + BytesBits(rest) == (taken + BitsOf(rest[0], 8)) + BytesBits(rest[1..])
    ensures Val(taken + BitsOf(rest[0], 8)) == acc + rest[0] * p
  {
    TakeByte(taken, rest);
    ByteValue(rest[0], 8);
    ValAppend(taken, BitsOf(rest[0], 8));
  }

  /** Splitting what was taken into the code and the bits kept for the next one. */
  lemma {:induction false} SplitTaken(taken: seq<bool>, rest: seq<bool>, bits: nat, p: nat)
    requires bits <= |taken| && p == Pow2(bits)
    ensures Val(taken) % p == Val((taken + rest)[..bits])
    ensures 0 <= Val(taken) / p < Pow2(|taken| - bits)
    ensures BitsOf(Val(taken) / p, |taken| - bits) + rest == (taken + rest)[bits..]
  {
    var a, b := taken[..bits], taken[bits..];
    assert taken == a + b;
    assert (taken + rest)[..bits] == a && (taken + rest)[bits..] == b + rest;
    SplitValue(a, b, p);
  }

  lemma {:induction false} SplitValue(a: seq<bool>, b: seq<bool>, p: nat)
    requires p == Pow2(|a|)
    ensures Val(a + b) % p == Val(a)
    ensures Val(a + b) / p == Val(b) < Pow2(|b|)
    ensures BitsOf(Val(b), |b|) == b
  {
    ValAppend(a, b);
    ValBound(a);
    ValBound(b);
    BitsOfVal(b);
    SplitSum(Val(a + b), Val(a), Val(b), p);
  }

  lemma SplitSum(v: nat, low: nat, high: nat, p: nat)
    requires v == low + p * high && low < p
    ensures v % p == low && v / p == high
  {
    assert p * high == high * p;
    DivModUnique(v, p, high, low);
  }

  class Decompressor {
    const tabPrefix: array<Code>
    const tabSuffix: array<byte>
    const deStack: array<byte>
    var getcodeOffset: nat
    var getcodeOldcode: nat
    var input: seq<byte>
    var next: nat
    var output: seq<byte>

    ghost predicate Shape() {
      && tabPrefix.Length == HSIZE && tabSuffix.Length == HSIZE && deStack.Length == STACK_SIZE
      && tabSuffix != deStack
    }

    ghost predicate Reading()
      reads this
    {
      next <= |input| && getcodeOffset < 8 && getcodeOldcode < Pow2(getcodeOffset)
    }

    ghost function Remaining(): seq<bool>
      requires Reading()
      reads this
    {
      Unread(getcodeOldcode, getcodeOffset, input[next..])
    }

    constructor ()
      ensures Shape() && fresh(tabPrefix) && fresh(tabSuffix) && fresh(deStack)
    {
      tabPrefix := new Code[HSIZE](_ => 0);
      tabSuffix := new byte[HSIZE](_ => 0);
      deStack := new byte[STACK_SIZE](_ => 0);
      getcodeOffset, getcodeOldcode, input, next, output := 0, 0, [], 0, [];
    }

    /** getbyte: -1 at the end of the input. */
    method GetByte() returns (c: int)
      requires next <= |input|
      modifies this`next
      ensures old(next) == |input| ==> c == -1 && next == old(next)
      ensures old(next) < |input| ==> c == input[old(next)] && next == old(next) + 1
    {
      if next == |input| {
        return -1;
      }
      c := input[next];
      next := next + 1;
    }

    /** getcode: the next `bits` bits of the stream, or -1 when fewer are left. */
    method GetCode(bits: nat) returns (code: int)
      requires Reading() && 9 <= bits
      modifies this`next, this`getcodeOffset, this`getcodeOldcode
      ensures code == -1 <==> |old(Remaining())| < bits
      ensures code != -1 ==>
        && Reading()
        && code == Val(old(Remaining())[..bits])
        && Remaining() == old(Remaining())[bits..]
    {
      var rOff := getcodeOffset;
      var acc := getcodeOldcode;
      ghost var rem, taken := Remaining(), BitsOf(getcodeOldcode, getcodeOffset);
      ValOfBits(acc, rOff);
      var more := true;
      while more
        invariant next <= |input| && |taken| == rOff < bits + 8 && acc == Val(taken)
        invariant more <==> rOff < bits
        invariant rem == taken + BytesBits(input[next..])
        decreases |input| - next, more
      {
        ghost var rest := input[next..];
        var c := GetByte();
        if c == -1 {
          assert rest == [];
          assert |rem| == |taken|;
          return -1;
        }
        assert rest[1..] == input[next..];
        TakeOne(taken, rest, acc, Pow2(rOff));
        taken := taken + BitsOf(c, 8);
        acc := acc + c * Pow2(rOff);
        rOff := rOff + 8;
        more := rOff < bits;
      }
      SplitTaken(taken, BytesBits(input[next..]), bits, Pow2(bits));
      var p := Pow2(bits);
      getcodeOldcode := acc / p;
      getcodeOffset := rOff - bits;
      code := acc % p;
    }

    /** The concrete globals and locals stand for the abstract decoder `d`. */
    ghost predicate Represents(d: Dec)
      reads this`output, tabPrefix, tabSuffix
    {
      && Shape() && WfDec(d)
      && d.prefix == tabPrefix[..] && d.suffix == tabSuffix[..] && d.out == output
    }

    /** "Generate output characters in reverse order" on top of the `sp0` bytes already
        stacked: false when the stack is too small. */
    method PushString(start: Code, sp0: nat) returns (ok: bool, sp: nat, first: byte)
      requires Shape() && sp0 < STACK_SIZE
      modifies deStack
      ensures var full := Completed(tabPrefix[..], tabSuffix[..], start, old(deStack[..sp0]));
              && sp <= STACK_SIZE
              && (ok <==> full.Some?)
              && (ok ==> sp > 0 && first == deStack[sp - 1] && full.value == Popped(deStack[..sp]))
    {
      ghost var p, s := tabPrefix[..], tabSuffix[..];
      sp, first, ok := sp0, 0, false;
      ghost var goal, stack := Completed(p, s, start, deStack[..sp]), deStack[..sp];
      var code := start;
      while code >= 256
        invariant sp <= STACK_SIZE && stack == deStack[..sp]
        invariant Completed(p, s, code, stack) == goal
        decreases STACK_SIZE - sp
      {
        if sp == STACK_SIZE {
          return;
        }
        PushLink(p, s, code, stack);
        stack := stack + [s[code]];
        deStack[sp] := tabSuffix[code];
        sp := sp + 1;
        code := tabPrefix[code];
      }
      if sp == STACK_SIZE {
        return;
      }
      PushLiteral(p, s, code, stack);
      first := tabSuffix[code];
      deStack[sp] := first;
      sp := sp + 1;
      assert deStack[..sp] == stack + [s[code]];
      ok := true;
    }

    /** "And put them out in forward order". */
    method PopString(sp: nat)
      requires Shape() && 0 < sp <= STACK_SIZE
      modifies this`output
      ensures output == old(output) + Popped(deStack[..sp])
    {
      var i := sp;
      while i > 0
        invariant 0 <= i <= sp
        invariant output + Popped(deStack[..i]) == old(output) + Popped(deStack[..sp])
      {
        ghost var s := deStack[..i];
        assert s[..i - 1] == deStack[..i - 1];
        AppendAssoc(output, [deStack[i - 1]], Popped(deStack[..i - 1]));
        i := i - 1;
        output := output + [deStack[i]];
      }
    }

    /** decompress(). The four failing outcomes are where the program would store through
        address 1 or past de_stack. */
    method Decompress(src: seq<byte>) returns (r: Outcome)
      requires Shape()
      modifies this, tabPrefix, tabSuffix, deStack
      ensures r == old(Decode(Tables(tabPrefix[..], tabSuffix[..]), src))
      ensures r.Ok? ==> output == r.out
    {
      getcodeOffset, getcodeOldcode := 0, 0;
      input, next, output := src, 0, [];
      ghost var t := Tables(tabPrefix[..], tabSuffix[..]);
      var m0 := GetByte();
      if m0 != MAGIC0 {
        return BadMagic;
      }
      var m1 := GetByte();
      if m1 != MAGIC1 {
        return BadMagic;
      }
      var bits := GetByte();
      if bits != MAX_BITS {
        return BadBits;
      }
      assert Remaining() == BytesBits(src[3..]);
      InitTables();
      r := DecodeCodes(DecInit(t));
    }

    /** The first 256 entries are the literals. */
    method InitTables()
      requires Shape()
      modifies tabPrefix, tabSuffix
      ensures tabPrefix[..] == ClearLiterals(old(tabPrefix[..]))
      ensures tabSuffix[..] == Literals() + old(tabSuffix[256..])
    {
      for code := 256 downto 0
        invariant forall k :: code <= k < 256 ==> tabPrefix[k] == 0 && tabSuffix[k] == k
        invariant forall k :: 256 <= k < HSIZE ==>
          tabPrefix[k] == old(tabPrefix[k]) && tabSuffix[k] == old(tabSuffix[k])
      {
        tabPrefix[code] := 0;
        tabSuffix[code] := code;
      }
    }

    /** The CLEAR case resets only the literals' prefixes. */
    method ClearPrefixes()
      requires Shape()
      modifies tabPrefix
      ensures tabPrefix[..] == ClearLiterals(old(tabPrefix[..]))
    {
      for code := 256 downto 0
        invariant forall k :: code <= k < 256 ==> tabPrefix[k] == 0
        invariant forall k :: 256 <= k < HSIZE ==> tabPrefix[k] == old(tabPrefix[k])
      {
        tabPrefix[code] := 0;
      }
    }

    /** One data code: expand it, put the string out, enter the pair, widen. */
    method TakeCode(incode: Code, oldcode: Code, finchar: nat, freeEnt: nat, maxcode: nat, nBits: nat, ghost d: Dec)
      returns (ok: bool, finchar': nat, freeEnt': nat, maxcode': nat, nBits': nat)
      requires Represents(d) && d.phase != First
      requires d.oldcode == oldcode && d.finchar == finchar && d.freeEnt == freeEnt
      requires d.nbits == nBits && maxcode == MaxCode(nBits)
      modifies this`output, tabPrefix, tabSuffix, deStack
      ensures ok <==> DecStep(d, incode).Some?
      ensures ok ==>
        var d' := DecStep(d, incode).value;
        && Represents(d') && d'.finchar == finchar' && d'.freeEnt == freeEnt'
        && d'.nbits == nBits' && maxcode' == MaxCode(nBits')
    {
      finchar', freeEnt', maxcode', nBits' := finchar, freeEnt, maxcode, nBits;
      var kwkwk := incode >= freeEnt;
      KwKwKStack(d.prefix, d.suffix, oldcode, finchar % 256);
      EmptyStack(d.prefix, d.suffix, incode);
      var sp, first;
      var code := incode;
      sp := 0;
      if kwkwk {
        deStack[0] := finchar % 256;
        sp := 1;
        code := oldcode;
      }
      assert deStack[..sp] == if kwkwk then [finchar % 256] else [];
      ok, sp, first := PushString(code, sp);
      if !ok {
        return;
      }
      ghost var s := Popped(deStack[..sp]);
      assert CodeString(d, incode) == Some(s);
      assert s[0] == first;
      PopString(sp);
      finchar' := first;
      if freeEnt < MAX_CODE {
        tabPrefix[freeEnt] := oldcode;
        tabSuffix[freeEnt] := first;
        freeEnt' := freeEnt + 1;
        assert tabPrefix[..] == d.prefix[freeEnt := oldcode];
        assert tabSuffix[..] == d.suffix[freeEnt := first];
      }
      if freeEnt' > maxcode' {
        nBits' := nBits' + 1;
        if nBits' == MAX_BITS {
          maxcode' := MAX_CODE;
        } else {
          maxcode' := Pow2(nBits') - 1;
        }
      }
    }

    /** A code has been read from `rem`; -1 when it did not hold one. */
    ghost predicate WasRead(code: int, nBits: nat, rem: seq<bool>)
      reads this
    {
      && -1 <= code && (code == -1 <==> |rem| < nBits)
      && (code != -1 ==> Reading() && nBits <= MAX_BITS && code == ReadCode(nBits, rem) && Remaining() == rem[nBits..])
    }

    /** The first code is a literal; the rest follow in the main loop. */
    method DecodeCodes(ghost d0: Dec) returns (r: Outcome)
      requires Reading() && Represents(d0) && d0.phase == First
      requires d0.nbits == INIT_BITS && d0.freeEnt == FIRST && output == []
      modifies this, tabPrefix, tabSuffix, deStack
      ensures r == old(DecRun(d0, Remaining()))
      ensures r.Ok? ==> output == r.out
    {
      ghost var rem := Remaining();
      var code := GetCode(INIT_BITS);
      assert WasRead(code, INIT_BITS, rem);
      if code == -1 || code == END {
        return NoFirstCode;
      }
      var oldcode: Code := code;
      output := output + [oldcode % 256];
      r := MainLoop(oldcode, DecStep(d0, code).value);
    }

    /** Take in a data code and read the next one. */
    method Advance(incode: Code, oldcode: Code, finchar: nat, freeEnt: nat, maxcode: nat, nBits: nat, ghost d: Dec,
                   ghost rem: seq<bool>)
      returns (ok: bool, code: int, finchar': nat, freeEnt': nat, maxcode': nat, nBits': nat, ghost d': Dec,
        ghost rem': seq<bool>)
      requires Represents(d) && d.phase != First
      requires d.oldcode == oldcode && d.finchar == finchar && d.freeEnt == freeEnt
      requires d.nbits == nBits && maxcode == MaxCode(nBits)
      requires WasRead(incode, nBits, rem) && (d.phase == Main ==> incode != END && incode != CLEAR)
      modifies this, tabPrefix, tabSuffix, deStack
      ensures !ok ==> DecRun(d, rem) == StackOverrun
      ensures ok ==>
        && Represents(d') && d'.phase == Main
        && d'.oldcode == incode && d'.finchar == finchar' && d'.freeEnt == freeEnt'
        && d'.nbits == nBits' && maxcode' == MaxCode(nBits')
        && WasRead(code, nBits', rem') && DecRun(d, rem) == DecRun(d', rem') && |rem'| < |rem|
    {
      ok, finchar', freeEnt', maxcode', nBits' := TakeCode(incode, oldcode, finchar, freeEnt, maxcode, nBits, d);
      code, d', rem' := -1, d, rem;
      if ok {
        d', rem' := DecStep(d, incode).value, rem[nBits..];
        code := GetCode(nBits');
      }
    }

    method MainLoop(firstcode: Code, ghost d0: Dec) returns (r: Outcome)
      requires Reading() && Represents(d0) && d0.phase == Main
      requires d0.nbits == INIT_BITS && d0.freeEnt == FIRST && d0.oldcode == d0.finchar == firstcode
      modifies this, tabPrefix, tabSuffix, deStack
      ensures r == old(DecRun(d0, Remaining()))
      ensures r.Ok? ==> output == r.out
    {
      ghost var goal, d, rem := DecRun(d0, Remaining()), d0, Remaining();
      var nBits: nat, maxcode: nat, freeEnt: nat := INIT_BITS, 511, FIRST;
      var oldcode: Code, finchar: nat := firstcode, firstcode;
      Pow2Values();
      var code := GetCode(nBits);
      while code > -1 && code != END
        invariant Represents(d) && d.phase == Main
        invariant d.oldcode == oldcode && d.finchar == finchar && d.freeEnt == freeEnt
        invariant d.nbits == nBits && maxcode == MaxCode(nBits)
        invariant WasRead(code, nBits, rem) && goal == DecRun(d, rem)
        decreases |rem|
      {
        if code == CLEAR {
          ClearPrefixes();
          d, rem := DecClear(d), rem[nBits..];
          nBits, maxcode, freeEnt := INIT_BITS, 511, FIRST - 1;
          code := GetCode(nBits);
          if code == -1 {
            break;
          }
        }
        var incode: Code := code;
        var ok;
        ok, code, finchar, freeEnt, maxcode, nBits, d, rem :=
          Advance(incode, oldcode, finchar, freeEnt, maxcode, nBits, d, rem);
        if !ok {
          return StackOverrun;
        }
        oldcode := incode;
      }
      r := Ok(output);
    }
  }
}
