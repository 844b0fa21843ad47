/** One compressor from new caches over a whole trace: buffers of records are cut into chunks,
    encoded and decoded again. The conditions here speak of the records alone. */
module RstTheorems {
  import opened Basics
  import opened RstTypes
  import opened Lru
  import opened RstCaches
  import opened EaCode
  import opened RstCodec
  import opened RstRoundTrip
  import opened RstExact
  import opened RstInvariants
  import opened RstChunking

  // ------------------------------------------------------------ what the records must satisfy

  predicate WfRecs(recs: seq<Rec>) {
    forall i :: 0 <= i < |recs| ==> WfRec(recs[i])
  }

  /** `items` could be cut out of the trace at `i`. */
  ghost predicate ChunkAt(recs: seq<Rec>, i: nat, items: seq<Item>) {
    GoodChunk(items) && i + |FlatItems(items)| <= |recs| && recs[i..i + |FlatItems(items)|] == FlatItems(items)
  }

  /** No chunk that could be cut out carries more addresses than every table entry has room for. */
  ghost predicate FewAddresses(recs: seq<Rec>) {
    forall i: nat, items :: ChunkAt(recs, i, items) ==> |Eas(items)| <= MIN_EAS
  }

  /** Records that always come back. */
  predicate Plain(cfg: Config, r: Rec) {
    (r.Instr? ==> r.pc != 0) && NoSentinel(r) && (cfg.freq == 0 || !SingleReg(r))
  }

  predicate AllPlain(cfg: Config, recs: seq<Rec>) {
    forall i :: 0 <= i < |recs| ==> Plain(cfg, recs[i])
  }

  // ------------------------------------------------------------ from records to segments

  lemma {:induction false} FollowersWf(items: seq<Item>)
    requires AllInstr(items) && WfRecs(FlatItems(items))
    requires forall k, j :: 0 <= k < |items| && 0 <= j < |items[k].after| ==> !items[k].after[j].Instr?
    ensures WfFollowers(Followers(items))
  {
    if items != [] {
      var x, tail := items[0], FlatItems(items[1..]);
      var all := FlatItems(items);
      assert forall i :: 0 <= i < |x.after| ==> x.after[i] == all[1 + i];
      assert forall i :: 0 <= i < |tail| ==> tail[i] == all[1 + |x.after| + i];
      assert forall k, j :: 0 <= k < |items[1..]| && 0 <= j < |items[1..][k].after| ==>
          items[1..][k].after[j] == items[k + 1].after[j];
      FollowersWf(items[1..]);
    }
  }

  lemma {:induction false} FollowersPlain(cfg: Config, items: seq<Item>)
    requires AllInstr(items) && AllPlain(cfg, FlatItems(items))
    ensures NoSentinels(items)
    ensures forall i :: 0 <= i < |Followers(items)| ==> Plain(cfg, Followers(items)[i].rec)
  {
    if items != [] {
      var x, tail := items[0], FlatItems(items[1..]);
      var all := FlatItems(items);
      assert forall i :: 0 <= i < |x.after| ==> x.after[i] == all[1 + i];
      assert forall i :: 0 <= i < |tail| ==> tail[i] == all[1 + |x.after| + i];
      FollowersPlain(cfg, items[1..]);
      NoSentinelsCons(items);
    }
  }

  /** A way that is hit has been written, and so has room. */
  lemma {:induction false} ChunkFits(s: Shared, log: Log, items: seq<Item>)
    requires WfShared(s, log) && WfItems(items) && |Eas(items)| <= MIN_EAS
    ensures Fits(s, items)
  {
    var h, i := HashOf(items[0].instr.pc), HitWay(s, items);
    assert WfSet(s.table[h], log.table[h]);
    if i != -1 { assert s.table[h].ways[i].words != []; }
  }

  ghost predicate Light(gs: seq<Seg>) {
    forall i :: 0 <= i < |gs| ==> gs[i].Run? ==> WfItems(gs[i].items) && |Eas(gs[i].items)| <= MIN_EAS
  }

  lemma {:induction false} SegsWf(gs: seq<Seg>)
    requires GoodSegs(gs)
    ensures WfSegs(gs)
  {
    forall i | 0 <= i < |gs|
      ensures WfSeg(gs[i])
    {
    }
  }

  lemma WfParts(a: seq<Rec>, b: seq<Rec>)
    requires WfRecs(a + b)
    ensures WfRecs(a) && WfRecs(b)
  {
    assert forall i :: 0 <= i < |a| ==> a[i] == (a + b)[i];
    assert forall i :: 0 <= i < |b| ==> b[i] == (a + b)[|a| + i];
  }

  lemma PlainParts(cfg: Config, a: seq<Rec>, b: seq<Rec>)
    requires AllPlain(cfg, a + b)
    ensures AllPlain(cfg, a) && AllPlain(cfg, b)
  {
    assert forall i :: 0 <= i < |a| ==> a[i] == (a + b)[i];
    assert forall i :: 0 <= i < |b| ==> b[i] == (a + b)[|a| + i];
  }

  lemma {:induction false} GoodTail(gs: seq<Seg>)
    requires GoodSegs(gs) && gs != []
    ensures GoodSegs(gs[1..]) && (Light(gs) ==> Light(gs[1..]))
  {
    assert forall i :: 0 <= i < |gs| - 1 ==> gs[1..][i] == gs[i + 1];
  }

  /** Segments of a trace whose records are well formed are admitted. */
  lemma {:induction false} SegsFit(cfg: Config, s: Shared, log: Log, gs: seq<Seg>)
    requires WfShared(s, log) && GoodSegs(gs) && Light(gs) && WfRecs(FlatSegs(gs))
    ensures WfSegs(gs) && SegsAdmitted(cfg, s, gs)
    decreases |gs|
  {
    SegsWf(gs);
    if gs != [] {
      WfParts(FlatSeg(gs[0]), FlatSegs(gs[1..]));
      GoodTail(gs);
      match gs[0] {
        case Lone(rec) => assert FlatSeg(gs[0])[0] == rec;
        case Run(items) =>
          FollowersWf(items);
          ChunkFits(s, log, items);
      }
      SegKeeps(cfg, s, log, gs[0]);
      SegsFit(cfg, AfterSeg(cfg, s, gs[0]), LogSeg(log, s, gs[0]), gs[1..]);
    }
  }

  lemma {:induction false} PlainSurvive(cfg: Config, s: Shared, gs: seq<Seg>)
    requires GoodSegs(gs) && AllPlain(cfg, FlatSegs(gs))
    ensures WfSegs(gs) && SegsSurvive(cfg, s, gs)
    decreases |gs|
  {
    SegsWf(gs);
    if gs != [] {
      PlainParts(cfg, FlatSeg(gs[0]), FlatSegs(gs[1..]));
      GoodTail(gs);
      if gs[0].Run? {
        var items := gs[0].items;
        assert FlatItems(items)[0] == items[0].instr;
        FollowersPlain(cfg, items);
      }
      PlainSurvive(cfg, AfterSeg(cfg, s, gs[0]), gs[1..]);
    }
  }

  lemma SplitAt(recs: seq<Rec>, at: nat, a: seq<Rec>, b: seq<Rec>)
    requires at <= |recs| && recs[at..] == a + b
    ensures at + |a| <= |recs| && recs[at..at + |a|] == a && recs[at + |a|..] == b
  {
    assert |recs| - at == |a| + |b|;
    assert recs[at..at + |a|] == recs[at..][..|a|] && recs[at + |a|..] == recs[at..][|a|..];
  }

  /** Chunks are pieces of the trace. */
  lemma {:induction false} SegsLight(recs: seq<Rec>, at: nat, gs: seq<Seg>)
    requires GoodSegs(gs) && at <= |recs| && recs[at..] == FlatSegs(gs) && FewAddresses(recs)
    ensures Light(gs)
    decreases |gs|
  {
    if gs != [] {
      SplitAt(recs, at, FlatSeg(gs[0]), FlatSegs(gs[1..]));
      GoodTail(gs);
      SegsLight(recs, at + |FlatSeg(gs[0])|, gs[1..]);
      assert gs[0].Run? ==> ChunkAt(recs, at, gs[0].items);
      assert forall i :: 0 < i < |gs| ==> gs[i] == gs[1..][i - 1];
    }
  }

  // ------------------------------------------------------------ whole traces

  /** `cuts` are the buffers, cut into segments. */
  ghost predicate CutsOf(bufs: seq<seq<Rec>>, cuts: seq<seq<Seg>>) {
    |cuts| == |bufs| && forall i :: 0 <= i < |bufs| ==> GoodSegs(cuts[i]) && FlatSegs(cuts[i]) == bufs[i]
  }

  function Joined(bufs: seq<seq<Rec>>): seq<Rec> {
    if bufs == [] then [] else bufs[0] + Joined(bufs[1..])
  }

  ghost predicate Fine(bufs: seq<seq<Rec>>) {
    forall i :: 0 <= i < |bufs| ==> WfRecs(bufs[i]) && FewAddresses(bufs[i])
  }

  lemma {:induction false} CutsFit(cfg: Config, s: Shared, log: Log, bufs: seq<seq<Rec>>, cuts: seq<seq<Seg>>)
    requires WfShared(s, log) && CutsOf(bufs, cuts) && Fine(bufs)
    ensures WfBuffers(cuts) && BuffersAdmitted(cfg, s, cuts) && FlatBuffers(cuts) == Joined(bufs)
    ensures (forall i :: 0 <= i < |bufs| ==> AllPlain(cfg, bufs[i])) ==> BuffersSurvive(cfg, s, cuts)
    decreases |bufs|
  {
    forall i | 0 <= i < |cuts|
      ensures WfSegs(cuts[i])
    {
      SegsWf(cuts[i]);
    }
    if bufs != [] {
      assert bufs[0][0..] == bufs[0];
      SegsLight(bufs[0], 0, cuts[0]);
      SegsFit(cfg, s, log, cuts[0]);
      RunKeeps(cfg, s, log, cuts[0]);
      assert forall i :: 0 <= i < |bufs| - 1 ==> bufs[1..][i] == bufs[i + 1] && cuts[1..][i] == cuts[i + 1];
      CutsFit(cfg, AfterBuffer(cfg, s, cuts[0]), LogBuffer(cfg, log, s, cuts[0]), bufs[1..], cuts[1..]);
      if AllPlain(cfg, bufs[0]) { PlainSurvive(cfg, s, cuts[0]); }
    }
  }

  /** A trace from new caches, for any well-formed records in chunks of few addresses: it comes
      back exactly when its chunks survive, and always when its records are plain. */
  lemma {:induction false} FromStart(cfg: Config, bufs: seq<seq<Rec>>, cuts: seq<seq<Seg>>, rest: Stream)
    requires CutsOf(bufs, cuts) && Fine(bufs)
    ensures WfBuffers(cuts)
    ensures var r := GetBuffers(cfg, Initial(), false, |bufs|, PutBuffers(cfg, Initial(), cuts, rest));
            && (Back(r, Joined(bufs), false) <==> BuffersSurvive(cfg, Initial(), cuts))
            && ((forall i :: 0 <= i < |bufs| ==> AllPlain(cfg, bufs[i])) ==> Back(r, Joined(bufs), false))
  {
    InitialOk();
    CutsFit(cfg, Initial(), NoEvents(), bufs, cuts);
    TraceExact(cfg, Initial(), cuts, false, rest);
  }

  /** Every chunk of every buffer goes on as long as it can. */
  ghost predicate FullyCut(bufs: seq<seq<Rec>>, cuts: seq<seq<Seg>>) {
    |cuts| == |bufs| && forall i :: 0 <= i < |bufs| ==> IsCut(bufs[i], cuts[i])
  }

  /** The compressor's driver: every buffer is cut, and the trace comes back as FromStart says. */
  method CompressTrace(cfg: Config, bufs: seq<seq<Rec>>) returns (cuts: seq<seq<Seg>>, z: Stream)
    requires Fine(bufs)
    ensures CutsOf(bufs, cuts) && FullyCut(bufs, cuts)
    ensures WfBuffers(cuts) && z == PutBuffers(cfg, Initial(), cuts, [])
    ensures var r := GetBuffers(cfg, Initial(), false, |bufs|, z);
            && (Back(r, Joined(bufs), false) <==> BuffersSurvive(cfg, Initial(), cuts))
            && ((forall i :: 0 <= i < |bufs| ==> AllPlain(cfg, bufs[i])) ==> Back(r, Joined(bufs), false))
  {
    cuts := CutAll(bufs);
    FromStart(cfg, bufs, cuts, []);
    z := PutBuffers(cfg, Initial(), cuts, []);
  }

  method CutAll(bufs: seq<seq<Rec>>) returns (cuts: seq<seq<Seg>>)
    ensures CutsOf(bufs, cuts) && FullyCut(bufs, cuts)
  {
    cuts := [];
    var reader := new ChunkReader();
    for i := 0 to |bufs|
      invariant |cuts| == i && forall j :: 0 <= j < i ==> CutOf(bufs[j], cuts[j])
    {
      var gs := reader.Cut(bufs[i]);
      cuts := cuts + [gs];
    }
  }

  // ------------------------------------------------------------ a checksum that looks like condition codes

  const CLASH_PC: u64 := 0xAC00_0000_0000_0000

  function ClashInstr(pc: u64): Rec {
    Instr(false, false, false, false, false, false, false, 0, pc, 0)
  }

  const ClashReg: Rec := Regval(true, RSTREG_INT_RT, 1, 0, RSTREG_UNUSED_RT, 0, 0)

  function ClashItems(): seq<Item> {
    [Item(ClashInstr(CLASH_PC), [ClashReg]), Item(ClashInstr(CLASH_PC + 4), [])]
  }

  /** Two instructions with a single-register record between them, on a big-endian machine, when a checksum is
      due and the sum so far is under 2^55: it begins with the byte of z_CCR_T, and the chunk is lost. */
  lemma {:induction false} ClashExists(cfg: Config, s: Shared, am: bool, rest: Stream)
    requires cfg.bigEndian && SumDue(cfg, s.chunks) && s.chksum < 0x80_0000_0000_0000 && Clear(cfg, rest)
    ensures var items := ClashItems();
            && GoodChunk(items) && Admitted(s, items) && items[0].instr.pc != 0 && NoSentinels(items)
            && SumClash(cfg, s, items)
            && !ChunkBack(cfg, s, items, am, PutChunk(cfg, s, items, rest), rest)
  {
    ClashChunk();
    ClashSum(cfg, s);
    ChunkExact(cfg, s, ClashItems(), am, rest);
  }

  lemma {:induction false} ClashChunk()
    ensures var items := ClashItems();
            && GoodChunk(items) && NoSentinels(items)
            && Followers(items) == [Follower(ClashReg, 0)] && Words(items) == [0, 0] && Flags(items) == [1, 0]
            && Eas(items) == [] && Counts(items) == [1]
  {
    var items := ClashItems();
    var last := items[1..];
    assert last == [Item(ClashInstr(CLASH_PC + 4), [])] && last[1..] == [];
    assert FlatItems(last) == [ClashInstr(CLASH_PC + 4)];
    assert |FlatItems(items)| == 3;
    assert Followers(last) == [] && Tagged([ClashReg], 0) == [Follower(ClashReg, 0)];
    assert Rd(0) == 0;
    assert Words(last) == [0] && Flags(last) == [0] && Eas(last) == [] && Counts(last) == [];
  }

  lemma {:induction false} ClashSum(cfg: Config, s: Shared)
    requires cfg.bigEndian && SumDue(cfg, s.chunks) && s.chksum < 0x80_0000_0000_0000
    ensures var items := ClashItems();
            WfItems(items) && Admitted(s, items) && SumClash(cfg, s, items)
  {
    var items := ClashItems();
    ClashChunk();
    var rtype := if HitWay(s, items) == -1 then z_INSTR_T else zL_INSTR_T;
    var c := ClashChecksum(s.chksum, rtype, Words(items), Flags(items), Eas(items), RecsOf(Followers(items)),
                           Counts(items));
    assert ChunkSum(s, items) == c;
  }

  lemma {:induction false} ClashChecksum(before: u64, rtype: byte, words: seq<u32>, flags: seq<byte>, eas: seq<u64>,
                                         recs: seq<Rec>, counts: seq<byte>)
    returns (c: u64)
    requires before < 0x80_0000_0000_0000
    requires words == [0, 0] && flags == [1, 0] && eas == [] && recs == [ClashReg] && counts == [1]
    ensures c == Wrap64(before + Checksum(rtype, CLASH_PC, words, flags, eas, recs, counts))
    ensures Lead(L(c), true) == z_CCR_T
  {
    assert RTypes(recs) == [REGVAL_T];
    OneTerm(RTypes(recs));
    OneTerm(counts);
    var w, f := words[1..], flags[1..];
    assert w == [0] && f == [0] && w[1..] == [];
    assert PairSum(w, f) == 0 + PairSum(w[1..], f[1..]);
    assert PairSum(words, flags) == 1 + PairSum(w, f);
    c := before + CLASH_PC + rtype + 2 + 1 + REGVAL_T + 1;
  }

  lemma OneTerm(x: seq<int>)
    requires |x| == 1
    ensures Sum(x) == x[0]
  {
    assert x[1..] == [];
  }

  // ------------------------------------------------------------ the same at the frequency in use

  /** A chunk of one instruction at pc 4. */
  const Small: seq<Item> := [Item(ClashInstr(4), [])]

  /** So many of them, and then the chunk that is lost. */
  function WarmUp(n: nat): (gs: seq<Seg>)
    ensures |gs| == n + 1
  {
    if n == 0 then [Run(ClashItems())] else [Run(Small)] + WarmUp(n - 1)
  }

  lemma {:induction false} SmallChunk(items: seq<Item>)
    requires items == Small
    ensures GoodChunk(items) && NoSentinels(items) && items[0].instr.pc == 4
    ensures Followers(items) == [] && Words(items) == [0] && Flags(items) == [0] && Eas(items) == []
    ensures Counts(items) == []
  {
    assert items[1..] == [];
    assert FlatItems(items) == [ClashInstr(4)];
  }

  /** A small chunk adds little to the sum. */
  lemma {:induction false} SmallStep(cfg: Config, s: Shared, items: seq<Item>)
    requires items == Small && cfg.freq != 0 && !SumDue(cfg, s.chunks) && s.chksum < 0x1_0000
    ensures WfItems(items) && Admitted(s, items) && Survives(cfg, s, items)
    ensures var s1 := AfterChunk(cfg, s, items); s1.chunks == s.chunks + 1 && s1.chksum <= s.chksum + 1000
  {
    SmallChunk(items);
    SmallAdds(s, items);
    assert AfterRecs(s, Followers(items)) == s;
  }

  lemma {:induction false} SmallAdds(s: Shared, items: seq<Item>)
    requires items == Small && WfItems(items) && s.chksum < 0x1_0000
    ensures ChunkSum(s, items) <= s.chksum + 1000
  {
    SmallChunk(items);
    var rtype: byte := if HitWay(s, items) == -1 then z_INSTR_T else zL_INSTR_T;
    SmallSum(rtype, Words(items), Flags(items), Eas(items), RecsOf(Followers(items)), Counts(items));
  }

  lemma {:induction false} SmallSum(rtype: byte, words: seq<u32>, flags: seq<byte>, eas: seq<u64>, recs: seq<Rec>,
                                    counts: seq<byte>)
    requires words == [0] && flags == [0] && eas == [] && recs == [] && counts == []
    ensures Checksum(rtype, 4, words, flags, eas, recs, counts) == rtype + 5
  {
    assert words[1..] == [] && flags[1..] == [];
    assert PairSum(words, flags) == 0 + PairSum(words[1..], flags[1..]);
    assert RTypes(recs) == [] && Sum(eas) == 0 && Sum(counts) == 0;
  }

  lemma {:induction false} WarmedUp(cfg: Config, s: Shared, n: nat)
    requires cfg == Config(16, true) && s.chunks + n == 15 && s.chksum <= 1000 * s.chunks
    ensures WfSegs(WarmUp(n)) && SegsAdmitted(cfg, s, WarmUp(n)) && !SegsSurvive(cfg, s, WarmUp(n))
    decreases n
  {
    WarmShape(n);
    if n == 0 {
      ClashAlone(cfg, s, WarmUp(n));
    } else {
      var m: nat, s1 := n - 1, AfterChunk(cfg, s, Small);
      SmallStep(cfg, s, Small);
      WarmedUp(cfg, s1, m);
      AddFirst(cfg, s, Small, s1, WarmUp(m), WarmUp(n));
    }
  }

  lemma ClashAlone(cfg: Config, s: Shared, gs: seq<Seg>)
    requires cfg.bigEndian && SumDue(cfg, s.chunks) && s.chksum < 0x80_0000_0000_0000
    requires gs == [Run(ClashItems())] && WfSegs(gs)
    ensures SegsAdmitted(cfg, s, gs) && !SegsSurvive(cfg, s, gs)
  {
    ClashSum(cfg, s);
    assert gs[1..] == [];
  }

  lemma AddFirst(cfg: Config, s: Shared, items: seq<Item>, s1: Shared, tail: seq<Seg>, gs: seq<Seg>)
    requires gs == [Run(items)] + tail && WfItems(items) && WfSegs(tail) && WfSegs(gs) && Admitted(s, items)
    requires s1 == AfterChunk(cfg, s, items) && SegsAdmitted(cfg, s1, tail) && !SegsSurvive(cfg, s1, tail)
    ensures SegsAdmitted(cfg, s, gs) && !SegsSurvive(cfg, s, gs)
  {
    assert gs[1..] == tail;
  }

  /** No chunk starts at pc 0 and no record holds a sentinel. */
  ghost predicate Ordinary(gs: seq<Seg>) {
    && GoodSegs(gs)
    && forall i :: 0 <= i < |gs| ==> gs[i].Run? && gs[i].items[0].instr.pc != 0 && NoSentinels(gs[i].items)
  }

  lemma {:induction false} WarmShape(n: nat)
    ensures Ordinary(WarmUp(n)) && WfSegs(WarmUp(n))
  {
    var gs := WarmUp(n);
    if n == 0 {
      ClashChunk();
    } else {
      SmallChunk(Small);
      WarmShape(n - 1);
      forall i | 0 < i < |gs| ensures gs[i] == WarmUp(n - 1)[i - 1] {}
    }
    SegsWf(gs);
  }

  /** With a checksum after every sixteenth chunk: fifteen small chunks, and the clash. No chunk starts at pc 0 and no
      record holds a sentinel, but the buffer does not come back. */
  lemma {:induction false} ClashAtSixteen(n: nat, am: bool, rest: Stream)
    requires n == 15
    ensures var cfg, gs := Config(16, true), WarmUp(n);
            && Ordinary(gs) && WfSegs(gs) && SegsAdmitted(cfg, Initial(), gs)
            && !Back(GetBuffer(cfg, Initial(), am, PutBuffer(cfg, Initial(), gs, rest)), FlatSegs(gs), am)
  {
    WarmShape(n);
    WarmedUp(Config(16, true), Initial(), n);
    BufferExact(Config(16, true), Initial(), WarmUp(n), am, rest);
  }
}
