/** Decompressing a compressed trace restores every record up to the fields the format drops,
    and leaves the decompressor's caches equal to the compressor's. */
module RstRoundTrip {
  import opened Basics
  import opened RstTypes
  import opened RstCaches
  import opened EaCode
  import opened RstCodec

  // ------------------------------------------------------------ what survives

  /**
   * The register record that comes back: taken as after the instruction, unused half zeroed. Its 13 unused bits,
   * which `Regval` does not hold, are not restored either.
   */
  function NormReg(r: Rec): Rec
    requires r.Regval? && Compressible(r)
  {
    if r.type1 == RSTREG_UNUSED_RT then r.(postInstr := true, id1 := 0, val1 := 0)
    else if r.type1 == RSTREG_CC_RT then r.(postInstr := true, val1 := 0)
    else r.(postInstr := true)
  }

  function NormInstr(r: Rec, am: bool): Rec
    requires r.Instr?
  {
    r.(notused := false, hpriv := false,
       ea := if CarryEa(r.word, r.eaValid) then r.ea else DerivedEa(r.word, r.pc, r.an, r.bt, am))
  }

  /** `b` is what may come back for `a`, with PSTATE.AM = am at that point of the trace. */
  ghost predicate RecEq(a: Rec, b: Rec, am: bool) {
    match a
    case Instr(_, _, _, _, _, _, _, _, _, _) => b == NormInstr(a, am)
    case Pavadiff(eaValid, _, _, _, _, _) =>
      b.Pavadiff? && (b == a || (!eaValid && b.(eaPaVa := a.eaPaVa) == a))
    case Regval(_, _, _, _, _, _, _) => b == if Compressible(a) then NormReg(a) else a
    case _ => b == a
  }

  ghost predicate TraceEq(a: seq<Rec>, b: seq<Rec>, am: bool)
    decreases |a|
  {
    && |a| == |b|
    && (a == [] || (RecEq(a[0], b[0], am) && TraceEq(a[1..], b[1..], AmAfter(am, a[0]))))
  }

  lemma {:induction false} AmAppend(am: bool, a: seq<Rec>, b: seq<Rec>)
    ensures AmAfterAll(am, a + b) == AmAfterAll(AmAfterAll(am, a), b)
    decreases |a|
  {
    if a == [] {
      assert a + b == b;
    } else {
      AmAppend(AmAfter(am, a[0]), a[1..], b);
      assert (a + b)[1..] == a[1..] + b;
    }
  }

  lemma {:induction false} TraceEqAppend(a: seq<Rec>, b: seq<Rec>, a': seq<Rec>, b': seq<Rec>, am: bool)
    requires |a| == |b|
    ensures TraceEq(a + a', b + b', am) <==> TraceEq(a, b, am) && TraceEq(a', b', AmAfterAll(am, a))
    decreases |a|
  {
    if a == [] {
      assert a + a' == a' && b + b' == b';
    } else {
      TraceEqAppend(a[1..], b[1..], a', b', AmAfter(am, a[0]));
      assert (a + a')[1..] == a[1..] + a' && (b + b')[1..] == b[1..] + b';
    }
  }

  /** Parts that have lost records do not make up a whole. */
  lemma {:induction false} TraceEqParts(a: seq<Rec>, b: seq<Rec>, a': seq<Rec>, b': seq<Rec>, am: bool)
    requires |b| <= |a| && |b'| <= |a'|
    ensures TraceEq(a + a', b + b', am) <==> TraceEq(a, b, am) && TraceEq(a', b', AmAfterAll(am, a))
  {
    if |b| == |a| {
      TraceEqAppend(a, b, a', b', am);
    } else {
      assert |a + a'| > |b + b'|;
    }
  }

  /** PSTATE.AM follows the decoded trace as it does the original. */
  lemma {:induction false} TraceEqAm(a: seq<Rec>, b: seq<Rec>, am: bool)
    requires TraceEq(a, b, am)
    ensures AmAfterAll(am, a) == AmAfterAll(am, b)
    decreases |a|
  {
    if a != [] {
      assert AmAfter(am, a[0]) == AmAfter(am, b[0]);
      TraceEqAm(a[1..], b[1..], AmAfter(am, a[0]));
    }
  }

  // ------------------------------------------------------------ register values

  lemma {:induction false} ValueRoundTrip(vc: Values, v: u64, rest: Stream)
    ensures GetValue(vc, PutValue(vc, v) + rest) == Good((v, VcAfter(vc, v)), rest)
  {
    var s := PutValue(vc, v) + rest;
    assert s[|PutValue(vc, v)|..] == rest;
  }

  lemma {:induction false} RegRoundTrip(vc: Values, id: byte, v: u64, known: bool, rest: Stream)
    ensures GetReg(vc, PutReg(vc, id, v, known) + rest) ==
            Good(RegVal(if known then -1 else id, v, VcAfter(vc, v)), rest)
  {
    ValueRoundTrip(vc, v, rest);
    var p := PutValue(vc, v);
    if known {
      assert PutReg(vc, id, v, known) + rest == p + rest;
    } else {
      assert PutReg(vc, id, v, known) + rest == [B(z_REGID_T), B(id)] + (p + rest);
    }
  }

  /** The stream after a record must not look like a condition-code byte. */
  predicate Clear(cfg: Config, rest: Stream) {
    rest != [] && Lead(rest[0], cfg.bigEndian) != z_CCR_T
  }

  lemma {:induction false} PutRegLead(cfg: Config, vc: Values, id: byte, v: u64, known: bool)
    ensures PutReg(vc, id, v, known) != [] && PutReg(vc, id, v, known)[0].B?
    ensures z_REGID_T <= PutReg(vc, id, v, known)[0].b < z_REGPAIR_T
  {
  }

  predicate SingleReg(r: Rec) {
    r.Regval? && Compressible(r) && r.type1 == RSTREG_UNUSED_RT
  }

  // ------------------------------------------------------------ one record

  /** What read_noninstr_rec returns for `a`: a register equal to `rid` shows as 255. */
  ghost predicate Coded(a: Rec, b: Rec, rid: int) {
    match a
    case Pavadiff(eaValid, _, _, _, _, _) =>
      b.Pavadiff? && (b == a || (!eaValid && b.(eaPaVa := a.eaPaVa) == a))
    case Regval(_, _, _, _, _, _, _) =>
      if !Compressible(a) then b == a
      else
        var n := NormReg(a);
        b == n.(id0 := if a.id0 == rid then SENTINEL else a.id0,
                id1 := if a.type1 == RSTREG_INT_RT && a.id1 == rid then SENTINEL else n.id1)
    case _ => b == a
  }

  lemma {:induction false} SingleRoundTrip(cfg: Config, s: Shared, r: Rec, rid: int, rest: Stream)
    requires SingleReg(r) && Clear(cfg, rest)
    ensures var g := GetRec(cfg, s, PutRec(s, r, rid) + rest);
            g.Good? && g.rest == rest && g.val.st == AfterRec(s, r) && Coded(r, g.val.rec, rid)
  {
    var p := PutReg(s.vc, r.id0, r.val0, r.id0 == rid);
    PutRegLead(cfg, s.vc, r.id0, r.val0, r.id0 == rid);
    RegRoundTrip(s.vc, r.id0, r.val0, r.id0 == rid, rest);
    assert PutRec(s, r, rid) == p;
  }

  /** A value with condition codes behind it. */
  lemma {:induction false} CcSingle(cfg: Config, s: Shared, id: byte, v: u64, known: bool, cc: byte, rest: Stream)
    ensures var g := GetSingle(cfg, s, PutReg(s.vc, id, v, known) + ([B(z_CCR_T), B(cc)] + rest));
            g == Good(GotRec(Regval(true, RSTREG_INT_RT, if known then SENTINEL else id, v, RSTREG_CC_RT, cc, 0),
                             s.(vc := VcAfter(s.vc, v))), rest)
  {
    var t := [B(z_CCR_T), B(cc)] + rest;
    RegRoundTrip(s.vc, id, v, known, t);
    assert t[2..] == rest;
    assert GetCcr(cfg, t) == Good(cc, rest);
  }

  lemma {:induction false} CcRoundTrip(cfg: Config, s: Shared, r: Rec, rid: int, rest: Stream)
    requires r.Regval? && Compressible(r) && r.type1 == RSTREG_CC_RT
    ensures var g := GetRec(cfg, s, PutRec(s, r, rid) + rest);
            g.Good? && g.rest == rest && g.val.st == AfterRec(s, r) && Coded(r, g.val.rec, rid)
  {
    var p, cc := PutReg(s.vc, r.id0, r.val0, r.id0 == rid), [B(z_CCR_T), B(r.id1)];
    PutRegLead(cfg, s.vc, r.id0, r.val0, r.id0 == rid);
    CcSingle(cfg, s, r.id0, r.val0, r.id0 == rid, r.id1, rest);
    assert PutRec(s, r, rid) + rest == p + (cc + rest);
    SingleIsRec(cfg, s, p + (cc + rest));
  }

  lemma SingleIsRec(cfg: Config, s: Shared, t: Stream)
    requires t != [] && t[0].B? && z_CCR_T <= t[0].b < z_REGPAIR_T
    ensures GetRec(cfg, s, t) == GetSingle(cfg, s, t)
  {
  }

  lemma {:induction false} GetPairRoundTrip(cfg: Config, s: Shared, r: Rec, rid: int, t: Stream, rest: Stream)
    requires r.Regval? && Compressible(r) && r.type1 == RSTREG_INT_RT
    requires t == PutReg(s.vc, r.id0, r.val0, r.id0 == rid)
                  + (PutReg(VcAfter(s.vc, r.val0), r.id1, r.val1, r.id1 == rid) + rest)
    ensures var g := GetPair(cfg, s, t);
            g.Good? && g.rest == rest && g.val.st == AfterRec(s, r) && Coded(r, g.val.rec, rid)
  {
    var vc1 := VcAfter(s.vc, r.val0);
    var p1 := PutReg(vc1, r.id1, r.val1, r.id1 == rid);
    PutRegLead(cfg, vc1, r.id1, r.val1, r.id1 == rid);
    RegRoundTrip(s.vc, r.id0, r.val0, r.id0 == rid, p1 + rest);
    RegRoundTrip(vc1, r.id1, r.val1, r.id1 == rid, rest);
    assert GetCcr(cfg, p1 + rest) == Good(-1, p1 + rest);
  }

  lemma {:induction false} PairRoundTrip(cfg: Config, s: Shared, r: Rec, rid: int, rest: Stream)
    requires r.Regval? && Compressible(r) && r.type1 == RSTREG_INT_RT
    ensures var g := GetRec(cfg, s, PutRec(s, r, rid) + rest);
            g.Good? && g.rest == rest && g.val.st == AfterRec(s, r) && Coded(r, g.val.rec, rid)
  {
    var p0 := PutReg(s.vc, r.id0, r.val0, r.id0 == rid);
    var p1 := PutReg(VcAfter(s.vc, r.val0), r.id1, r.val1, r.id1 == rid);
    var t := PutRec(s, r, rid) + rest;
    assert t == [B(z_REGPAIR_T)] + (p0 + (p1 + rest));
    assert t[1..] == p0 + (p1 + rest);
    GetPairRoundTrip(cfg, s, r, rid, t[1..], rest);
  }

  /** A pavadiff record is stored raw, or as a reference to a cache entry that matches it. */
  lemma {:induction false} PavaRoundTrip(cfg: Config, s: Shared, r: Rec, rid: int, rest: Stream)
    requires r.Pavadiff?
    ensures var g := GetRec(cfg, s, PutRec(s, r, rid) + rest);
            g.Good? && g.rest == rest && g.val.st == AfterRec(s, r) && Coded(r, g.val.rec, rid)
  {
    var t := PutRec(s, r, rid) + rest;
    assert t[1..] == rest;
    var i := PavaSearch(s.pava.entries, r, 0);
    if i == -1 {
      assert t[0] == Raw(r);
    } else {
      assert t[0] == B(z0_PAVADIFF_T + i);
    }
  }

  lemma {:induction false} RawRoundTrip(cfg: Config, s: Shared, r: Rec, rest: Stream)
    requires WfRec(r) && !r.Instr? && !r.Pavadiff?
    ensures GetRec(cfg, s, [Raw(r)] + rest) == Good(GotRec(r, s), rest)
  {
    assert ([Raw(r)] + rest)[1..] == rest;
    assert RType(r) < 160;
  }

  lemma {:induction false} RecRoundTrip(cfg: Config, s: Shared, r: Rec, rid: int, rest: Stream)
    requires WfRec(r) && !r.Instr? && (SingleReg(r) ==> Clear(cfg, rest))
    ensures var g := GetRec(cfg, s, PutRec(s, r, rid) + rest);
            g.Good? && g.rest == rest && g.val.st == AfterRec(s, r) && Coded(r, g.val.rec, rid)
  {
    if r.Regval? && Compressible(r) {
      if r.type1 == RSTREG_UNUSED_RT {
        SingleRoundTrip(cfg, s, r, rid, rest);
      } else if r.type1 == RSTREG_CC_RT {
        CcRoundTrip(cfg, s, r, rid, rest);
      } else {
        PairRoundTrip(cfg, s, r, rid, rest);
      }
    } else if r.Pavadiff? {
      PavaRoundTrip(cfg, s, r, rid, rest);
    } else {
      RawRoundTrip(cfg, s, r, rest);
    }
  }

  /** The condition of RecRoundTrip is exact: a following byte equal to z_CCR_T is taken for
      the condition codes of a single-register record, which then comes back wrong. */
  lemma {:induction false} CcrClash(cfg: Config, s: Shared, r: Rec, rid: int, rest: Stream)
    requires SingleReg(r) && rest != [] && Lead(rest[0], cfg.bigEndian) == z_CCR_T
    ensures var g := GetRec(cfg, s, PutRec(s, r, rid) + rest);
            g.Good? ==> !Coded(r, g.val.rec, rid)
  {
    PutRegLead(cfg, s.vc, r.id0, r.val0, r.id0 == rid);
    RegRoundTrip(s.vc, r.id0, r.val0, r.id0 == rid, rest);
    assert PutRec(s, r, rid) == PutReg(s.vc, r.id0, r.val0, r.id0 == rid);
  }

  /** Every record's code begins with something that is not a condition-code byte, a chunk or
      the footer. */
  lemma {:induction false} PutRecLead(cfg: Config, s: Shared, r: Rec, rid: int)
    requires WfRec(r) && !r.Instr?
    ensures PutRec(s, r, rid) != [] &&
      Lead(PutRec(s, r, rid)[0], cfg.bigEndian) !in {z_FOOTER_T, z_INSTR_T, zL_INSTR_T, z_CCR_T}
  {
    if r.Regval? && Compressible(r) {
      PutRegLead(cfg, s.vc, r.id0, r.val0, r.id0 == rid);
    }
  }

  // ------------------------------------------------------------ regids

  /** No register number that write_chunk would take for the sentinel. */
  predicate NoSentinel(r: Rec) {
    r.Regval? ==> r.id0 != SENTINEL && (r.id1 != SENTINEL || (Compressible(r) && r.type1 == RSTREG_UNUSED_RT))
  }

  /** Inside a chunk the destination register restores exactly the records without sentinel. */
  lemma {:induction false} FixedRecEq(a: Rec, b: Rec, rid: byte, am: bool)
    requires !a.Instr? && rid < 32 && Coded(a, b, rid)
    ensures RecEq(a, FixId(b, rid), am) <==> NoSentinel(a)
  {
  }

  // ------------------------------------------------------------ lists of records

  predicate WfFollowers(fs: seq<Follower>) {
    forall i :: 0 <= i < |fs| ==> WfRec(fs[i].rec) && !fs[i].rec.Instr? && fs[i].rid < 32
  }

  ghost predicate CodedAll(fs: seq<Follower>, recs: seq<Rec>) {
    |recs| == |fs| && forall i :: 0 <= i < |fs| ==> Coded(fs[i].rec, recs[i], fs[i].rid)
  }

  predicate EndsSingle(fs: seq<Follower>) {
    fs != [] && SingleReg(fs[|fs| - 1].rec)
  }

  lemma {:induction false} RecsRoundTrip(cfg: Config, s: Shared, fs: seq<Follower>, rest: Stream)
    requires WfFollowers(fs) && (EndsSingle(fs) ==> Clear(cfg, rest))
    ensures var g := GetRecs(cfg, s, |fs|, PutRecs(s, fs) + rest);
            g.Good? && g.rest == rest && g.val.st == AfterRecs(s, fs) && CodedAll(fs, g.val.recs)
    decreases |fs|
  {
    if fs == [] {
      assert PutRecs(s, fs) + rest == rest;
    } else {
      var r, rid, s1, tail := fs[0].rec, fs[0].rid, AfterRec(s, fs[0].rec), fs[1..];
      var p, q := PutRec(s, r, rid), PutRecs(s1, tail);
      assert PutRecs(s, fs) + rest == p + (q + rest);
      if tail == [] {
        assert q + rest == rest;
      } else {
        PutRecLead(cfg, s1, tail[0].rec, tail[0].rid);
        assert tail[|tail| - 1] == fs[|fs| - 1];
      }
      RecRoundTrip(cfg, s, r, rid, q + rest);
      RecsRoundTrip(cfg, s1, tail, rest);
      CodedCons(fs, GetRec(cfg, s, p + (q + rest)).val.rec, GetRecs(cfg, s1, |tail|, q + rest).val.recs);
    }
  }

  lemma {:induction false} CodedCons(fs: seq<Follower>, r: Rec, rs: seq<Rec>)
    requires fs != [] && Coded(fs[0].rec, r, fs[0].rid) && CodedAll(fs[1..], rs)
    ensures CodedAll(fs, [r] + rs)
  {
    forall i | 0 <= i < |fs|
      ensures Coded(fs[i].rec, ([r] + rs)[i], fs[i].rid)
    {
      if i > 0 {
        assert fs[i] == fs[1..][i - 1] && ([r] + rs)[i] == rs[i - 1];
      }
    }
  }

  lemma {:induction false} BsRoundTrip(x: seq<byte>, rest: Stream)
    ensures ReadBs(|x|, Bs(x) + rest) == Good(x, rest)
  {
    assert forall i :: 0 <= i < |x| ==> (Bs(x) + rest)[i] == B(x[i]);
    assert (Bs(x) + rest)[|x|..] == rest;
    assert ReadBs(|x|, Bs(x) + rest).val == x;
  }

  lemma {:induction false} WsRoundTrip(x: seq<u32>, rest: Stream)
    ensures ReadWs(|x|, Ws(x) + rest) == Good(x, rest)
  {
    assert forall i :: 0 <= i < |x| ==> (Ws(x) + rest)[i] == W(x[i]);
    assert (Ws(x) + rest)[|x|..] == rest;
    assert ReadWs(|x|, Ws(x) + rest).val == x;
  }

  lemma {:induction false} LsRoundTrip(x: seq<u64>, rest: Stream)
    ensures ReadLs(|x|, Ls(x) + rest) == Good(x, rest)
  {
    assert forall i :: 0 <= i < |x| ==> (Ls(x) + rest)[i] == L(x[i]);
    assert (Ls(x) + rest)[|x|..] == rest;
    assert ReadLs(|x|, Ls(x) + rest).val == x;
  }

  // ------------------------------------------------------------ chunk heads

  lemma LastBit(x: nat, b: bool, y: nat)
    requires y == 2 * x + Bit(b)
    ensures y / 2 == x && (y % 2 == 1 <==> b)
  {
  }

  lemma LowBits(high: nat, pr: bool, bt: bool, an: bool, more: bool, f: nat)
    requires f == 2 * (2 * (2 * (2 * (2 * high) + Bit(pr)) + Bit(bt)) + Bit(an)) + Bit(more)
    ensures FlagBit(f, 0) == more && FlagBit(f, 1) == an && FlagBit(f, 2) == bt && FlagBit(f, 3) == pr
    ensures f / 2 / 2 / 2 / 2 / 2 == high
  {
    var d := 2 * (2 * high) + Bit(pr);
    var e := 2 * d + Bit(bt);
    var g := 2 * e + Bit(an);
    LastBit(g, more, f);
    LastBit(e, an, g);
    LastBit(d, bt, e);
    LastBit(2 * high, pr, d);
    assert FlagBit(g, 0) == an && FlagBit(e, 0) == bt && FlagBit(d, 0) == pr;
    assert FlagBit(e, 1) == pr;
  }

  lemma HighBits(notused: bool, eaValid: bool, tr: bool, high: nat, f: nat)
    requires high == 2 * (2 * Bit(notused) + Bit(eaValid)) + Bit(tr) && f / 2 / 2 / 2 / 2 / 2 == high
    ensures FlagBit(f, 5) == tr && FlagBit(f, 6) == eaValid
  {
    var a := 2 * Bit(notused) + Bit(eaValid);
    LastBit(a, tr, high);
    LastBit(Bit(notused), eaValid, a);
    var c := f / 2 / 2 / 2;
    assert FlagBit(c, 2) == FlagBit(c / 2, 1) == FlagBit(high, 0);
    assert FlagBit(high, 1) == FlagBit(a, 0);
    assert FlagBit(c, 3) == FlagBit(c / 2, 2) == FlagBit(high, 1);
    assert FlagBit(f, 5) == FlagBit(f / 2, 4) == FlagBit(f / 2 / 2, 3) == FlagBit(c, 2);
    assert FlagBit(f, 6) == FlagBit(f / 2, 5) == FlagBit(f / 2 / 2, 4) == FlagBit(c, 3);
  }

  /** The flags byte keeps its six bits apart. */
  lemma {:induction false} FlagBits(x: Item)
    requires x.instr.Instr?
    ensures var f, i := FlagsOf(x), x.instr;
            && FlagBit(f, 6) == i.eaValid && FlagBit(f, 5) == i.tr && FlagBit(f, 3) == i.pr
            && FlagBit(f, 2) == i.bt && FlagBit(f, 1) == i.an && FlagBit(f, 0) == (x.after != [])
  {
    var i, f := x.instr, FlagsOf(x);
    var high := 2 * (2 * Bit(i.notused) + Bit(i.eaValid)) + Bit(i.tr);
    LowBits(high, i.pr, i.bt, i.an, x.after != [], f);
    HighBits(i.notused, i.eaValid, i.tr, high, f);
  }

  predicate ShortRuns(items: seq<Item>) {
    forall k :: 0 <= k < |items| ==> |items[k].after| < 256
  }

  lemma {:induction false} EaCountAgrees(items: seq<Item>)
    requires AllInstr(items)
    ensures NumEa(Words(items), Flags(items)) == |Eas(items)|
  {
    if items != [] {
      FlagBits(items[0]);
      EaCountAgrees(items[1..]);
      assert Words(items)[1..] == Words(items[1..]) && Flags(items)[1..] == Flags(items[1..]);
    }
  }

  lemma {:induction false} RunCountAgrees(items: seq<Item>)
    requires AllInstr(items) && ShortRuns(items)
    ensures NumCounts(Flags(items)) == |Counts(items)|
    ensures Total(Counts(items)) == |Followers(items)|
  {
    if items != [] {
      FlagBits(items[0]);
      RunCountAgrees(items[1..]);
      assert Flags(items)[1..] == Flags(items[1..]);
      if items[0].after != [] {
        assert Counts(items)[1..] == Counts(items[1..]);
      } else {
        assert Counts(items) == Counts(items[1..]);
      }
    }
  }

  /** The reader's counts, worked out from words and flags, are the writer's. */
  lemma {:induction false} CountsAgree(items: seq<Item>)
    requires AllInstr(items) && ShortRuns(items)
    ensures NumEa(Words(items), Flags(items)) == |Eas(items)|
    ensures NumCounts(Flags(items)) == |Counts(items)|
    ensures Total(Counts(items)) == |Followers(items)|
  {
    EaCountAgrees(items);
    RunCountAgrees(items);
  }

  function HeadFor(s: Shared, items: seq<Item>): Head
    requires WfItems(items)
  {
    Head(HitWay(s, items) != -1, items[0].instr.pc, Words(items), Flags(items), Eas(items), Counts(items),
      TableAfter(s, items))
  }

  lemma {:induction false} FlagsRoundTrip(s: Shared, items: seq<Item>, rest: Stream)
    requires WfItems(items)
    ensures var pc, i := items[0].instr.pc, HitWay(s, items);
            var loop := i != -1;
            var eas := if loop then PutEas(Eas(items), s.table[HashOf(pc)].ways[i].eaBuf, 0) else Ls(Eas(items));
            GetFlags(s, loop, i, pc, Words(items), Bs(Flags(items)) + (eas + (Bs(Counts(items)) + rest))) ==
              Good(HeadFor(s, items), rest)
  {
    CountsAgree(items);
    var pc, i := items[0].instr.pc, HitWay(s, items);
    var t3 := Bs(Counts(items)) + rest;
    BsRoundTrip(Counts(items), rest);
    if i == -1 {
      BsRoundTrip(Flags(items), Ls(Eas(items)) + t3);
      LsRoundTrip(Eas(items), t3);
    } else {
      var bases := s.table[HashOf(pc)].ways[i].eaBuf;
      BsRoundTrip(Flags(items), PutEas(Eas(items), bases, 0) + t3);
      EasRoundTrip(Eas(items), bases, 0, t3);
    }
  }

  lemma {:induction false} HeadRoundTrip(s: Shared, items: seq<Item>, rest: Stream)
    requires WfItems(items)
    ensures var t := ChunkHead(s, items, rest);
            && t != [] && t[0].C? && t[0].rtype in {z_INSTR_T, zL_INSTR_T}
            && GetHead(s, t[0], t[1..]) == Good(HeadFor(s, items), rest)
  {
    var pc, i := items[0].instr.pc, HitWay(s, items);
    var t3 := Bs(Counts(items)) + rest;
    FlagsRoundTrip(s, items, rest);
    if i == -1 {
      var t1 := Bs(Flags(items)) + (Ls(Eas(items)) + t3);
      WsRoundTrip(Words(items), t1);
      assert ChunkHead(s, items, rest)[1..] == Ws(Words(items)) + t1;
    } else {
      var t1 := Bs(Flags(items)) + (PutEas(Eas(items), s.table[HashOf(pc)].ways[i].eaBuf, 0) + t3);
      SearchAgreement(s.table[HashOf(pc)], pc, Words(items));
      assert ChunkHead(s, items, rest)[1..] == t1;
    }
  }

  // ------------------------------------------------------------ rebuilding the records

  function FlatItems(items: seq<Item>): seq<Rec> {
    if items == [] then [] else [items[0].instr] + items[0].after + FlatItems(items[1..])
  }

  predicate PcsFrom(items: seq<Item>, pc: u64)
    requires AllInstr(items)
  {
    items == [] || (items[0].instr.pc == pc && PcsFrom(items[1..], Wrap64(pc + 4)))
  }

  lemma {:induction false} PcsSequential(items: seq<Item>, pc: u64)
    requires AllInstr(items) && forall k :: 0 <= k < |items| ==> items[k].instr.pc == Wrap64(pc + 4 * k)
    ensures PcsFrom(items, pc)
  {
    if items != [] {
      var pc1 := Wrap64(pc + 4);
      forall k | 0 <= k < |items[1..]|
        ensures items[1..][k].instr.pc == Wrap64(pc1 + 4 * k)
      {
        assert items[1..][k] == items[k + 1];
        WrapAdd(pc + 4, 4 * k);
      }
      PcsSequential(items[1..], pc1);
    }
  }

  predicate NoSentinels(items: seq<Item>) {
    forall k, j :: 0 <= k < |items| && 0 <= j < |items[k].after| ==> NoSentinel(items[k].after[j])
  }

  /** The records after one instruction come back exactly when none holds a sentinel. */
  lemma {:induction false} RunRestored(rs: seq<Rec>, coded: seq<Rec>, rd: byte, am: bool)
    requires rd < 32 && CodedAll(Tagged(rs, rd), coded)
    requires forall i :: 0 <= i < |rs| ==> !rs[i].Instr?
    ensures AmAfterAll(am, FixIds(coded, rd)) == AmAfterAll(am, rs)
    ensures TraceEq(rs, FixIds(coded, rd), am) <==> forall i :: 0 <= i < |rs| ==> NoSentinel(rs[i])
    decreases |rs|
  {
    if rs != [] {
      assert Tagged(rs, rd)[0] == Follower(rs[0], rd);
      FixedRecEq(rs[0], coded[0], rd, am);
      CodedTail(rs, coded, rd);
      RunRestored(rs[1..], coded[1..], rd, AmAfter(am, rs[0]));
      assert FixIds(coded, rd)[1..] == FixIds(coded[1..], rd);
      assert forall i :: 0 < i < |rs| ==> rs[i] == rs[1..][i - 1];
    }
  }

  lemma CodedTail(rs: seq<Rec>, coded: seq<Rec>, rd: byte)
    requires rs != [] && CodedAll(Tagged(rs, rd), coded)
    ensures CodedAll(Tagged(rs[1..], rd), coded[1..])
  {
    forall i | 0 <= i < |rs| - 1
      ensures Coded(Tagged(rs[1..], rd)[i].rec, coded[1..][i], Tagged(rs[1..], rd)[i].rid)
    {
      assert Tagged(rs, rd)[i + 1] == Follower(rs[1..][i], rd);
    }
  }

  /** The instruction that comes back for the first one of a chunk. */
  function Rebuilt(x: Item, am: bool): Rec
    requires x.instr.Instr?
  {
    var i := x.instr;
    RebuildInstr(FlagsOf(x), i.word, i.pc, if CarryEa(i.word, i.eaValid) then i.ea else 0, am)
  }

  lemma {:induction false} InstrRestored(x: Item, am: bool)
    requires x.instr.Instr?
    ensures RecEq(x.instr, Rebuilt(x, am), am)
  {
    FlagBits(x);
  }

  predicate NoneSentinel(rs: seq<Rec>) {
    forall i :: 0 <= i < |rs| ==> NoSentinel(rs[i])
  }

  lemma {:induction false} ItemRestored(x: Item, coded: seq<Rec>, am: bool)
    requires x.instr.Instr? && CodedAll(Tagged(x.after, Rd(x.instr.word)), coded)
    requires forall i :: 0 <= i < |x.after| ==> !x.after[i].Instr?
    ensures var run := FixIds(coded, Rd(x.instr.word));
            && (TraceEq([x.instr] + x.after, [Rebuilt(x, am)] + run, am) <==> NoneSentinel(x.after))
            && AmAfterAll(am, [x.instr] + x.after) == AmAfterAll(am, run)
  {
    var run := FixIds(coded, Rd(x.instr.word));
    InstrRestored(x, am);
    RunRestored(x.after, coded, Rd(x.instr.word), am);
    assert ([x.instr] + x.after)[1..] == x.after && ([Rebuilt(x, am)] + run)[1..] == run;
  }

  /** Interleaving restores a chunk exactly when none of its records holds a sentinel. */
  lemma {:induction false} RebuildRestores(items: seq<Item>, recs: seq<Rec>, pc: u64, am: bool)
    requires AllInstr(items) && ShortRuns(items) && PcsFrom(items, pc)
    requires WfFollowers(Followers(items)) && CodedAll(Followers(items), recs)
    ensures NumEa(Words(items), Flags(items)) == |Eas(items)|
    ensures NumCounts(Flags(items)) == |Counts(items)| && Total(Counts(items)) == |recs|
    ensures var got := Rebuild(Words(items), Flags(items), Eas(items), Counts(items), recs, pc, am);
            |got| == |FlatItems(items)| && (TraceEq(FlatItems(items), got, am) <==> NoSentinels(items))
    decreases |items|
  {
    CountsAgree(items);
    if items != [] {
      var x, tail, n := items[0], items[1..], |items[0].after|;
      SplitCoded(items, recs);
      CountsAgree(tail);
      ItemRestored(x, recs[..n], am);
      var run := FixIds(recs[..n], Rd(x.instr.word));
      var am1 := AmAfterAll(am, run);
      RebuildRestores(tail, recs[n..], Wrap64(pc + 4), am1);
      RebuildCons(items, recs, pc, am);
      var rest := Rebuild(Words(tail), Flags(tail), Eas(tail), Counts(tail), recs[n..], Wrap64(pc + 4), am1);
      TraceEqAppend([x.instr] + x.after, [Rebuilt(x, am)] + run, FlatItems(tail), rest, am);
      NoSentinelsCons(items);
    }
  }

  /** Rebuilding takes the first instruction, its run, and goes on. */
  lemma {:induction false} RebuildCons(items: seq<Item>, recs: seq<Rec>, pc: u64, am: bool)
    requires items != [] && AllInstr(items) && ShortRuns(items) && items[0].instr.pc == pc
    requires Total(Counts(items)) == |recs| && |items[0].after| <= |recs|
    requires NumEa(Words(items), Flags(items)) == |Eas(items)| && NumCounts(Flags(items)) == |Counts(items)|
    requires var tail := items[1..];
             && NumEa(Words(tail), Flags(tail)) == |Eas(tail)| && NumCounts(Flags(tail)) == |Counts(tail)|
             && Total(Counts(tail)) == |recs| - |items[0].after|
    ensures var x, tail, n := items[0], items[1..], |items[0].after|;
            var run := FixIds(recs[..n], Rd(x.instr.word));
            Rebuild(Words(items), Flags(items), Eas(items), Counts(items), recs, pc, am) ==
            [Rebuilt(x, am)] + run
            + Rebuild(Words(tail), Flags(tail), Eas(tail), Counts(tail), recs[n..], Wrap64(pc + 4), AmAfterAll(am, run))
  {
    var x, tail := items[0], items[1..];
    FlagBits(x);
    assert Words(items)[1..] == Words(tail) && Flags(items)[1..] == Flags(tail);
    assert Eas(tail) == if CarryEa(x.instr.word, x.instr.eaValid) then Eas(items)[1..] else Eas(items);
    assert Counts(tail) == if x.after != [] then Counts(items)[1..] else Counts(items);
  }

  lemma {:induction false} NoSentinelsCons(items: seq<Item>)
    requires items != []
    ensures NoSentinels(items) <==> NoneSentinel(items[0].after) && NoSentinels(items[1..])
  {
    if NoneSentinel(items[0].after) && NoSentinels(items[1..]) {
      forall k, j | 0 <= k < |items| && 0 <= j < |items[k].after|
        ensures NoSentinel(items[k].after[j])
      {
        if k > 0 { assert items[1..][k - 1] == items[k]; }
      }
    }
    if NoSentinels(items) {
      assert forall k :: 0 <= k < |items[1..]| ==> items[1..][k] == items[k + 1];
    }
  }

  lemma {:induction false} SplitCoded(items: seq<Item>, recs: seq<Rec>)
    requires AllInstr(items) && items != [] && WfFollowers(Followers(items)) && CodedAll(Followers(items), recs)
    ensures var x, n := items[0], |items[0].after|;
            && n <= |recs|
            && CodedAll(Tagged(x.after, Rd(x.instr.word)), recs[..n])
            && CodedAll(Followers(items[1..]), recs[n..])
            && WfFollowers(Followers(items[1..]))
            && forall i :: 0 <= i < n ==> !x.after[i].Instr?
  {
    var x, n, fs := items[0], |items[0].after|, Followers(items);
    var a, b := Tagged(x.after, Rd(x.instr.word)), Followers(items[1..]);
    assert fs == a + b;
    assert forall i :: 0 <= i < n ==> fs[i] == a[i] == Follower(x.after[i], Rd(x.instr.word));
    assert forall i :: 0 <= i < |b| ==> fs[n + i] == b[i];
  }
}
