/** The codes for address offsets, register values and run lengths are the shortest that their decoders take, and the
    value cache does its work: a wide value costs three bytes the second time. */
module RstShortest {
  import opened Basics
  import opened RstTypes
  import opened RstCaches
  import opened EaCode
  import opened RstCodec
  import C = RstCpu

  /** What a unit takes in the compressed buffer. */
  function Bytes(u: Unit): nat {
    match u
    case Raw(_) => 24
    case B(_) => 1
    case H(_) => 2
    case W(_) => 4
    case L(_) => 8
    case C(_, _, _) => 11
  }

  function Size(s: Stream): nat {
    if s == [] then 0 else Bytes(s[0]) + Size(s[1..])
  }

  lemma OneUnit(s: Stream)
    requires |s| == 1
    ensures Size(s) == Bytes(s[0])
  {
    assert s[1..] == [];
  }

  lemma TwoUnits(s: Stream)
    requires |s| == 2
    ensures Size(s) == Bytes(s[0]) + Bytes(s[1])
  {
    assert s[1..] == [s[1]];
    OneUnit(s[1..]);
  }

  lemma SmallSize(s: Stream)
    requires 1 <= |s| <= 2
    ensures Size(s) == Bytes(s[0]) + if |s| == 2 then Bytes(s[1]) else 0
  {
    if |s| == 1 { OneUnit(s); } else { TwoUnits(s); }
  }

  // ------------------------------------------------------------ addresses

  /** No stream that decodes to an offset is shorter than its code. */
  lemma ShortestOffset(o: int, t: Stream)
    requires -0x8000_0000_0000_0000 <= o < 0x8000_0000_0000_0000 && GetOffset(t) == Good(o, [])
    ensures Size(PutOffset(o)) <= Size(t)
  {
    SmallSize(PutOffset(o));
    assert 1 <= |t| <= 2;
    SmallSize(t);
  }

  /** An address that has not changed costs a single byte. */
  lemma SameAddress(ea: u64)
    ensures PutOffset(Offset(ea, ea)) == [B(0)]
  {
  }

  // ------------------------------------------------------------ register values

  /** What is ever in the value cache: values of more than two bytes, except -1, in their own slots. */
  ghost predicate WideOnly(vc: Values) {
    forall i :: i in vc ==> VcIndex(vc[i]) == i && 0x1_0000 <= vc[i] < TWO64 - 1
  }

  lemma StaysWide(vc: Values, v: u64)
    requires WideOnly(vc)
    ensures WideOnly(VcAfter(vc, v))
  {
  }

  /** No stream that decodes to a value, with the cache that the encoder has, is shorter than its code. */
  lemma ShortestValue(vc: Values, v: u64, t: Stream)
    requires WideOnly(vc) && GetValue(vc, t).Good? && GetValue(vc, t).val.0 == v && GetValue(vc, t).rest == []
    ensures Size(PutValue(vc, v)) <= Size(t)
  {
    SmallSize(PutValue(vc, v));
    assert 1 <= |t| <= 2;
    SmallSize(t);
  }

  /** A value coded once costs at most three bytes the next time. */
  lemma ValueAgain(vc: Values, v: u64)
    ensures Size(PutValue(VcAfter(vc, v), v)) <= 3
  {
    SmallSize(PutValue(VcAfter(vc, v), v));
  }

  lemma {:induction false} RecsStayWide(s: Shared, fs: seq<Follower>)
    requires WideOnly(s.vc)
    ensures WideOnly(AfterRecs(s, fs).vc)
    decreases |fs|
  {
    if fs != [] {
      RecStaysWide(s, fs[0].rec);
      RecsStayWide(AfterRec(s, fs[0].rec), fs[1..]);
    }
  }

  lemma RecStaysWide(s: Shared, r: Rec)
    requires WideOnly(s.vc)
    ensures WideOnly(AfterRec(s, r).vc)
  {
    if r.Regval? {
      StaysWide(s.vc, r.val0);
      StaysWide(VcAfter(s.vc, r.val0), r.val1);
    }
  }

  /** In every state that the encoder reaches the value cache holds wide values only. */
  lemma {:induction false} RunStaysWide(cfg: Config, s: Shared, gs: seq<Seg>)
    requires WfSegs(gs) && WideOnly(s.vc)
    ensures WideOnly(AfterBuffer(cfg, s, gs).vc)
    decreases |gs|
  {
    if gs != [] {
      match gs[0] {
        case Lone(rec) => RecStaysWide(s, rec);
        case Run(items) => RecsStayWide(s, Followers(items));
      }
      RunStaysWide(cfg, AfterSeg(cfg, s, gs[0]), gs[1..]);
    }
  }

  // ------------------------------------------------------------ register records

  lemma {:induction false} SizeAppend(a: Stream, b: Stream)
    ensures Size(a + b) == Size(a) + Size(b)
  {
    if a == [] {
      assert a + b == b;
    } else {
      SizeAppend(a[1..], b);
      assert (a + b)[1..] == a[1..] + b;
    }
  }

  lemma RegSize(vc: Values, id: byte, v: u64, known: bool)
    ensures Size(PutReg(vc, id, v, known)) <= if known then 9 else 11
  {
    SizeAppend(if known then [] else [B(z_REGID_T), B(id)], PutValue(vc, v));
    SmallSize(PutValue(vc, v));
    if !known { TwoUnits([B(z_REGID_T), B(id)]); }
  }

  /** A record of an integer register and nothing, condition codes or another integer register is always coded, and
      never takes as much as the 24 bytes of the record itself. */
  lemma RegistersShrink(s: Shared, r: Rec, rid: int)
    requires r.Regval? && r.type0 == 1 && (r.type1 == 1 || r.type1 == 5 || r.type1 == 6)
    ensures Size(PutRec(s, r, rid)) <= 23
  {
    var p := PutReg(s.vc, r.id0, r.val0, r.id0 == rid);
    RegSize(s.vc, r.id0, r.val0, r.id0 == rid);
    if r.type1 == 1 {
      var vc1 := VcAfter(s.vc, r.val0);
      var q := PutReg(vc1, r.id1, r.val1, r.id1 == rid);
      RegSize(vc1, r.id1, r.val1, r.id1 == rid);
      SizeAppend([B(z_REGPAIR_T)] + p, q);
      SizeAppend([B(z_REGPAIR_T)], p);
      OneUnit([B(z_REGPAIR_T)]);
    } else {
      var cc := if r.type1 == 6 then [B(z_CCR_T), B(r.id1)] else [];
      SizeAppend(p, cc);
      if r.type1 == 6 { TwoUnits(cc); }
    }
  }

  // ------------------------------------------------------------ run lengths

  /** No bytes that decode to one run are fewer than its code. */
  lemma ShortestCount(r: C.CpuCount, z: seq<byte>, bigEndian: bool)
    requires C.Countable(r) && C.GetCounts(z, bigEndian) == C.Counts([r])
    ensures |C.PutCount(r, bigEndian)| <= |z|
  {
    assert |z| >= 2;
    if z[1] != 0 || |z| == 2 {
      FirstRun(C.CpuCount(z[0], z[1]), C.GetCounts(z[2..], bigEndian), r);
    } else {
      assert |z| >= 4;
      var n := C.Value16(z[2], z[3], bigEndian);
      if n != 0 || |z| == 4 {
        FirstRun(C.CpuCount(z[0], n), C.GetCounts(z[4..], bigEndian), r);
      }
    }
  }

  lemma FirstRun(first: C.CpuCount, rest: C.Counts, r: C.CpuCount)
    requires C.More(first, rest) == C.Counts([r])
    ensures first == r
  {
    assert ([first] + rest.runs)[0] == first;
  }

  /** The count code writes numbers in the byte order in which the decompressor's lookahead sees them. */
  lemma SameByteOrder(h: u16, w: u32, bigEndian: bool)
    ensures C.Bytes16(h, bigEndian)[0] == Lead(H(h), bigEndian) && |C.Bytes32(w, bigEndian)| == 4
    ensures C.Bytes32(w, bigEndian)[0] == Lead(W(w), bigEndian)
  {
  }

  /** And the two halves of a doubleword lie in that order. */
  lemma SameHalfOrder(d: u64, high: u32, low: u32, bigEndian: bool)
    requires d == high * 0x1_0000_0000 + low
    ensures Lead(L(d), bigEndian) == Lead(W(if bigEndian then high else low), bigEndian)
  {
    if bigEndian {
      TopByte(d, high, low, high / 0x100_0000, high % 0x100_0000);
    } else {
      LowByte(d, high, low);
    }
  }

  lemma TopByte(d: int, high: int, low: int, q: int, r: int)
    requires d == high * 0x1_0000_0000 + low && 0 <= low < 0x1_0000_0000 && high == q * 0x100_0000 + r
    requires 0 <= r < 0x100_0000
    ensures d / 0x100_0000_0000_0000 == q
  {
    assert d == q * 0x100_0000_0000_0000 + (r * 0x1_0000_0000 + low);
  }

  lemma LowByte(d: int, high: int, low: int)
    requires d == high * 0x1_0000_0000 + low
    ensures d % 0x100 == low % 0x100
  {
    assert d == (high * 0x100_0000) * 0x100 + low;
  }
}
