/** When a compressed trace comes back. A chunk is restored exactly when it starts at a pc other
    than 0, holds no register number equal to the sentinel, and is not followed by a checksum
    that looks like condition codes; buffers and traces exactly when all their chunks are. */
module RstExact {
  import opened Basics
  import opened RstTypes
  import opened RstCaches
  import opened EaCode
  import opened RstCodec
  import opened RstRoundTrip
  import opened RstAlike

  // ------------------------------------------------------------ what is asked of a chunk

  /** The addresses fit the allocation of the table entry they are coded against. */
  predicate Fits(s: Shared, items: seq<Item>)
    requires WfItems(items)
  {
    HitWay(s, items) != -1 ==> |Eas(items)| <= |s.table[HashOf(items[0].instr.pc)].ways[HitWay(s, items)].eaBuf|
  }

  /** What the source takes for granted. */
  predicate Admitted(s: Shared, items: seq<Item>)
    requires WfItems(items)
  {
    WfFollowers(Followers(items)) && Fits(s, items)
  }

  /** A checksum word that begins with z_CCR_T right after a single-register record. */
  predicate SumClash(cfg: Config, s: Shared, items: seq<Item>)
    requires WfItems(items)
  {
    EndsSingle(Followers(items)) && SumDue(cfg, s.chunks) && Lead(L(ChunkSum(s, items)), cfg.bigEndian) == z_CCR_T
  }

  /** The chunks that come back. */
  predicate Survives(cfg: Config, s: Shared, items: seq<Item>)
    requires WfItems(items)
  {
    items[0].instr.pc != 0 && NoSentinels(items) && !SumClash(cfg, s, items)
  }

  // ------------------------------------------------------------ the pieces of a chunk

  lemma {:induction false} CodedTypes(fs: seq<Follower>, recs: seq<Rec>)
    requires CodedAll(fs, recs)
    ensures RTypes(RecsOf(fs)) == RTypes(recs)
  {
    forall i | 0 <= i < |fs|
      ensures RTypes(RecsOf(fs))[i] == RTypes(recs)[i]
    {
      assert Coded(fs[i].rec, recs[i], fs[i].rid);
    }
  }

  lemma {:induction false} SumRoundTrip(cfg: Config, s: Shared, sum: u64, rest: Stream)
    ensures CheckSum(cfg, s, sum, SumUnits(cfg, s.chunks, sum) + rest) == Good(AfterSum(cfg, s, sum), rest)
  {
    if SumDue(cfg, s.chunks) {
      assert ([L(sum)] + rest)[1..] == rest;
    } else {
      assert SumUnits(cfg, s.chunks, sum) + rest == rest;
    }
  }

  lemma {:induction false} AfterRecsChunks(s: Shared, fs: seq<Follower>)
    ensures AfterRecs(s, fs).chunks == s.chunks
    decreases |fs|
  {
    if fs != [] { AfterRecsChunks(AfterRec(s, fs[0].rec), fs[1..]); }
  }

  lemma {:induction false} HeadForOk(s: Shared, items: seq<Item>)
    requires WfItems(items)
    ensures WfHead(HeadFor(s, items)) && Total(Counts(items)) == |Followers(items)|
  {
    CountsAgree(items);
  }

  /** The checksum over the records read is the one over the records written. */
  lemma {:induction false} SumsAgree(s: Shared, items: seq<Item>, recs: seq<Rec>)
    requires WfItems(items) && CodedAll(Followers(items), recs)
    ensures WfHead(HeadFor(s, items)) && SumOf(s.chksum, HeadFor(s, items), recs) == ChunkSum(s, items)
  {
    HeadForOk(s, items);
    CodedTypes(Followers(items), recs);
  }

  /** The stream after the head and the other records of a chunk. */
  function Tail(cfg: Config, s: Shared, items: seq<Item>, rest: Stream): Stream
    requires WfItems(items)
  {
    SumUnits(cfg, s.chunks, ChunkSum(s, items)) + rest
  }

  lemma {:induction false} BodyRoundTrip(cfg: Config, s: Shared, items: seq<Item>, rest: Stream) returns (g: GotRecs)
    requires WfItems(items) && Admitted(s, items) && !SumClash(cfg, s, items) && Clear(cfg, rest)
    ensures var t := Tail(cfg, s, items, rest);
            GetRecs(cfg, s, Total(Counts(items)), PutRecs(s, Followers(items)) + t) == Good(g, t)
    ensures g.st == AfterRecs(s, Followers(items)) && CodedAll(Followers(items), g.recs)
  {
    var t := Tail(cfg, s, items, rest);
    CountsAgree(items);
    if SumDue(cfg, s.chunks) {
      assert t[0] == L(ChunkSum(s, items));
    } else {
      assert t == rest;
    }
    RecsRoundTrip(cfg, s, Followers(items), t);
    g := GetRecs(cfg, s, Total(Counts(items)), PutRecs(s, Followers(items)) + t).val;
  }

  /** A unit of several bytes taken for condition codes ends the decoding. */
  lemma {:induction false} SingleClash(cfg: Config, s: Shared, r: Rec, rid: int, rest: Stream)
    requires SingleReg(r) && rest != [] && !rest[0].B? && Lead(rest[0], cfg.bigEndian) == z_CCR_T
    ensures GetRec(cfg, s, PutRec(s, r, rid) + rest) == Bad
  {
    PutRegLead(cfg, s.vc, r.id0, r.val0, r.id0 == rid);
    RegRoundTrip(s.vc, r.id0, r.val0, r.id0 == rid, rest);
    assert PutRec(s, r, rid) == PutReg(s.vc, r.id0, r.val0, r.id0 == rid);
  }

  lemma {:induction false} RecsClash(cfg: Config, s: Shared, fs: seq<Follower>, rest: Stream)
    requires WfFollowers(fs) && EndsSingle(fs)
    requires rest != [] && !rest[0].B? && Lead(rest[0], cfg.bigEndian) == z_CCR_T
    ensures GetRecs(cfg, s, |fs|, PutRecs(s, fs) + rest) == Bad
    decreases |fs|
  {
    var r, rid, s1, tail := fs[0].rec, fs[0].rid, AfterRec(s, fs[0].rec), fs[1..];
    var p, q := PutRec(s, r, rid), PutRecs(s1, tail);
    assert PutRecs(s, fs) + rest == p + (q + rest);
    if tail == [] {
      assert q + rest == rest;
      SingleClash(cfg, s, r, rid, rest);
    } else {
      PutRecLead(cfg, s1, tail[0].rec, tail[0].rid);
      assert tail[|tail| - 1] == fs[|fs| - 1];
      RecRoundTrip(cfg, s, r, rid, q + rest);
      RecsClash(cfg, s1, tail, rest);
    }
  }

  /** The end of a chunk whose records have been read. */
  lemma {:induction false} FinishState(cfg: Config, s: Shared, items: seq<Item>, am: bool, g: GotRecs, rest: Stream)
    requires WfItems(items) && items[0].instr.pc != 0
    requires g.st == AfterRecs(s, Followers(items)) && CodedAll(Followers(items), g.recs)
    ensures WfHead(HeadFor(s, items)) && Total(Counts(items)) == |g.recs|
    ensures var h := HeadFor(s, items);
            FinishChunk(cfg, s.chksum, am, h, Good(g, Tail(cfg, s, items, rest))) ==
            Good(GotRecs(Rebuild(h.words, h.flags, h.eas, h.counts, g.recs, h.pc, am), AfterChunk(cfg, s, items)), rest)
  {
    HeadForOk(s, items);
    SumsAgree(s, items, g.recs);
    AfterRecsChunks(s, Followers(items));
    SumRoundTrip(cfg, g.st.(table := TableAfter(s, items)), ChunkSum(s, items), rest);
  }

  lemma {:induction false} FinishRecords(s: Shared, items: seq<Item>, recs: seq<Rec>, am: bool)
    requires WfItems(items) && WfFollowers(Followers(items)) && CodedAll(Followers(items), recs)
    ensures var h := HeadFor(s, items);
            && WfHead(h) && Total(h.counts) == |recs|
            && var got := Rebuild(h.words, h.flags, h.eas, h.counts, recs, h.pc, am);
               && |got| == |FlatItems(items)| && (TraceEq(FlatItems(items), got, am) <==> NoSentinels(items))
               && (TraceLike(FlatItems(items), got) ==> NoSentinels(items))
               && StartsAt(got, items[0].instr.pc)
  {
    PcsSequential(items, items[0].instr.pc);
    RebuildRestores(items, recs, items[0].instr.pc, am);
    RebuildLike(items, recs, items[0].instr.pc, am);
  }

  /** The first record is an instruction at `pc`. */
  predicate StartsAt(recs: seq<Rec>, pc: u64) {
    recs != [] && recs[0].Instr? && recs[0].pc == pc
  }

  // ------------------------------------------------------------ chunks

  /** Decoding begins with a chunk, leaves exactly `rest`, and gives the chunk's records. */
  ghost predicate ChunkBack(cfg: Config, s: Shared, items: seq<Item>, am: bool, t: Stream, rest: Stream) {
    && t != [] && t[0].C?
    && var r := GetChunk(cfg, s, am, t[0], t[1..]);
       r.Good? && r.rest == rest && TraceEq(FlatItems(items), r.val.recs, am)
  }

  /** What decoding makes of a chunk that is written and not misread. */
  lemma {:induction false} ChunkDecodes(cfg: Config, s: Shared, items: seq<Item>, am: bool, rest: Stream)
    returns (recs: seq<Rec>)
    requires WfItems(items) && Admitted(s, items) && Clear(cfg, rest)
    requires items[0].instr.pc != 0 && !SumClash(cfg, s, items)
    ensures var t := PutChunk(cfg, s, items, rest);
            && t != [] && t[0].C? && t[0].rtype in {z_INSTR_T, zL_INSTR_T}
            && GetChunk(cfg, s, am, t[0], t[1..]) == Good(GotRecs(recs, AfterChunk(cfg, s, items)), rest)
    ensures |recs| == |FlatItems(items)| && (TraceEq(FlatItems(items), recs, am) <==> NoSentinels(items))
    ensures (TraceLike(FlatItems(items), recs) ==> NoSentinels(items)) && StartsAt(recs, items[0].instr.pc)
  {
    var t := Tail(cfg, s, items, rest);
    HeadRoundTrip(s, items, PutRecs(s, Followers(items)) + t);
    var g := BodyRoundTrip(cfg, s, items, rest);
    FinishState(cfg, s, items, am, g, rest);
    FinishRecords(s, items, g.recs, am);
    recs := FinishChunk(cfg, s.chksum, am, HeadFor(s, items), Good(g, t)).val.recs;
  }

  /** A chunk whose checksum is taken for condition codes. */
  lemma {:induction false} ChunkClash(cfg: Config, s: Shared, items: seq<Item>, am: bool, rest: Stream)
    requires WfItems(items) && Admitted(s, items) && items[0].instr.pc != 0 && SumClash(cfg, s, items)
    ensures var t := PutChunk(cfg, s, items, rest);
            && t != [] && t[0].C? && t[0].rtype in {z_INSTR_T, zL_INSTR_T}
            && GetChunk(cfg, s, am, t[0], t[1..]) == Bad
  {
    var t := Tail(cfg, s, items, rest);
    assert t[0] == L(ChunkSum(s, items));
    HeadRoundTrip(s, items, PutRecs(s, Followers(items)) + t);
    CountsAgree(items);
    RecsClash(cfg, s, Followers(items), t);
  }

  /** A chunk that starts at pc 0 leaves no trace in the output. */
  lemma {:induction false} ZeroPcIsLost(cfg: Config, s: Shared, items: seq<Item>)
    requires WfItems(items) && items[0].instr.pc == 0
    ensures FlatItems(items) != [] && AfterChunk(cfg, s, items) == s
    ensures forall rest: Stream :: PutChunk(cfg, s, items, rest) == rest
  {
    assert FlatItems(items)[0] == items[0].instr;
  }

  /** The exact condition, for every chunk: it comes back if and only if it survives. The caches,
      the checksum and the chunk counter are then equal on both sides. */
  lemma {:induction false} ChunkExact(cfg: Config, s: Shared, items: seq<Item>, am: bool, rest: Stream)
    requires WfItems(items) && Admitted(s, items) && Clear(cfg, rest)
    ensures ChunkBack(cfg, s, items, am, PutChunk(cfg, s, items, rest), rest) <==> Survives(cfg, s, items)
    ensures var t := PutChunk(cfg, s, items, rest);
            Survives(cfg, s, items) ==> GetChunk(cfg, s, am, t[0], t[1..]).val.st == AfterChunk(cfg, s, items)
  {
    if items[0].instr.pc == 0 {
      ZeroPcIsLost(cfg, s, items);
    } else if SumClash(cfg, s, items) {
      ChunkClash(cfg, s, items, am, rest);
    } else {
      var recs := ChunkDecodes(cfg, s, items, am, rest);
    }
  }

  // ------------------------------------------------------------ buffers

  function FlatSeg(g: Seg): seq<Rec> {
    match g
    case Lone(rec) => [rec]
    case Run(items) => FlatItems(items)
  }

  function FlatSegs(gs: seq<Seg>): seq<Rec> {
    if gs == [] then [] else FlatSeg(gs[0]) + FlatSegs(gs[1..])
  }

  predicate SegAdmitted(s: Shared, g: Seg)
    requires WfSeg(g)
  {
    match g
    case Lone(rec) => WfRec(rec)
    case Run(items) => Admitted(s, items)
  }

  /** Every segment is admitted in the state in which it is reached. */
  predicate SegsAdmitted(cfg: Config, s: Shared, gs: seq<Seg>)
    requires WfSegs(gs)
    decreases |gs|
  {
    gs == [] || (SegAdmitted(s, gs[0]) && SegsAdmitted(cfg, AfterSeg(cfg, s, gs[0]), gs[1..]))
  }

  predicate SegSurvives(cfg: Config, s: Shared, g: Seg)
    requires WfSeg(g)
  {
    g.Run? ==> Survives(cfg, s, g.items)
  }

  predicate SegsSurvive(cfg: Config, s: Shared, gs: seq<Seg>)
    requires WfSegs(gs)
    decreases |gs|
  {
    gs == [] || (SegSurvives(cfg, s, gs[0]) && SegsSurvive(cfg, AfterSeg(cfg, s, gs[0]), gs[1..]))
  }

  /** Whatever a decoder returns for `orig`, it leaves `rest`, is in state `st`, and has made
      no more records than there were. */
  ghost predicate InStep(r: Res<GotBuffer>, orig: seq<Rec>, st: Shared, am: bool, rest: Stream) {
    r.Good? ==> r.rest == rest && r.val.st == st && |r.val.recs| <= |orig| && r.val.am == AmAfterAll(am, r.val.recs)
  }

  /** The records have come back. */
  ghost predicate Back(r: Res<GotBuffer>, orig: seq<Rec>, am: bool) {
    r.Good? && TraceEq(orig, r.val.recs, am)
  }

  /** A part in front of a buffer: the whole comes back if and only if both do. */
  lemma {:induction false} StepExact(head: seq<Rec>, got: seq<Rec>, r: Res<GotBuffer>, orig: seq<Rec>, st: Shared,
                                     am: bool, rest: Stream)
    requires |got| <= |head| && InStep(r, orig, st, AmAfterAll(am, got), rest)
    ensures InStep(Resume(got, r), head + orig, st, am, rest)
    ensures Back(Resume(got, r), head + orig, am) <==> TraceEq(head, got, am) && Back(r, orig, AmAfterAll(am, got))
  {
    if r.Good? {
      AmAppend(am, got, r.val.recs);
      TraceEqParts(head, got, orig, r.val.recs, am);
      if TraceEq(head, got, am) { TraceEqAm(head, got, am); }
    }
  }

  lemma SameLead(t: Stream, rest: Stream)
    requires t != []
    ensures t + rest != [] && (t + rest)[0] == t[0]
  {
  }

  lemma {:induction false} PutSegLead(cfg: Config, s: Shared, g: Seg, rest: Stream)
    requires WfSeg(g) && SegAdmitted(s, g) && Clear(cfg, rest)
    ensures Clear(cfg, PutSeg(cfg, s, g, rest))
  {
    if g.Lone? {
      PutRecLead(cfg, s, g.rec, -1);
      SameLead(PutRec(s, g.rec, -1), rest);
    }
  }

  lemma {:induction false} PutBufferLead(cfg: Config, s: Shared, gs: seq<Seg>, rest: Stream)
    requires WfSegs(gs) && SegsAdmitted(cfg, s, gs)
    ensures Clear(cfg, PutBuffer(cfg, s, gs, rest))
    decreases |gs|
  {
    if gs != [] {
      var s1 := AfterSeg(cfg, s, gs[0]);
      PutBufferLead(cfg, s1, gs[1..], rest);
      PutSegLead(cfg, s, gs[0], PutBuffer(cfg, s1, gs[1..], rest));
    }
  }

  /** A record outside chunks: its register numbers are always in the stream. */
  lemma {:induction false} LoneRecEq(a: Rec, b: Rec, am: bool)
    requires !a.Instr? && Coded(a, b, -1)
    ensures TraceEq([a], [b], am)
  {
    assert [a][1..] == [] && [b][1..] == [];
  }

  lemma {:induction false} LoneStep(cfg: Config, s: Shared, rec: Rec, am: bool, q: Stream) returns (b: Rec)
    requires WfRec(rec) && !rec.Instr? && Clear(cfg, q)
    ensures TraceEq([rec], [b], am)
    ensures GetBuffer(cfg, s, am, PutRec(s, rec, -1) + q) ==
      Resume([b], GetBuffer(cfg, AfterRec(s, rec), AmAfterAll(am, [b]), q))
  {
    RecRoundTrip(cfg, s, rec, -1, q);
    PutRecLead(cfg, s, rec, -1);
    var t := PutRec(s, rec, -1) + q;
    b := GetRec(cfg, s, t).val.rec;
    LoneRecEq(rec, b, am);
    assert t[0] == PutRec(s, rec, -1)[0];
    assert AmAfterAll(am, [b]) == AmAfter(am, b);
  }

  lemma {:induction false} LeadChunk(cfg: Config, s: Shared, am: bool, t: Stream)
    requires t != [] && t[0].C? && (t[0].rtype == z_INSTR_T || t[0].rtype == zL_INSTR_T)
    ensures GetBuffer(cfg, s, am, t) == AfterGot(cfg, am, GetChunk(cfg, s, am, t[0], t[1..]), |t|)
  {
    assert Lead(t[0], cfg.bigEndian) == t[0].rtype;
  }

  lemma {:induction false} GotChunk(cfg: Config, am: bool, recs: seq<Rec>, s': Shared, q: Stream, bound: nat)
    requires |q| < bound
    ensures AfterGot(cfg, am, Good(GotRecs(recs, s'), q), bound) ==
      Resume(recs, GetBuffer(cfg, s', AmAfterAll(am, recs), q))
  {
  }

  /** A chunk that is not written at all. */
  predicate AtZero(g: Seg)
    requires WfSeg(g)
  {
    g.Run? && g.items[0].instr.pc == 0
  }

  predicate ZeroFirst(recs: seq<Rec>) {
    recs != [] && recs[0].Instr? && recs[0].pc == 0
  }

  /** One segment, with what it leaves; None when decoding ends in it. */
  lemma {:induction false} SegStep(cfg: Config, s: Shared, g: Seg, am: bool, q: Stream) returns (got: Option<seq<Rec>>)
    requires WfSeg(g) && SegAdmitted(s, g) && Clear(cfg, q)
    ensures got.None? ==> !SegSurvives(cfg, s, g) && GetBuffer(cfg, s, am, PutSeg(cfg, s, g, q)) == Bad
    ensures got.Some? && !AtZero(g) ==> |got.value| == |FlatSeg(g)| && got.value != [] && !ZeroFirst(got.value)
    ensures got.Some? && TraceLike(FlatSeg(g), got.value) ==> SegSurvives(cfg, s, g)
    ensures got.Some? ==>
      && |got.value| <= |FlatSeg(g)| && (TraceEq(FlatSeg(g), got.value, am) <==> SegSurvives(cfg, s, g))
      && GetBuffer(cfg, s, am, PutSeg(cfg, s, g, q)) ==
         Resume(got.value, GetBuffer(cfg, AfterSeg(cfg, s, g), AmAfterAll(am, got.value), q))
  {
    match g
    case Lone(rec) =>
      var b := LoneStep(cfg, s, rec, am, q);
      got := Some([b]);
    case Run(items) => got := RunStep(cfg, s, items, am, q);
  }

  lemma {:induction false} RunStep(cfg: Config, s: Shared, items: seq<Item>, am: bool, q: Stream)
    returns (got: Option<seq<Rec>>)
    requires WfItems(items) && Admitted(s, items) && Clear(cfg, q)
    ensures got.None? ==> !Survives(cfg, s, items) && GetBuffer(cfg, s, am, PutChunk(cfg, s, items, q)) == Bad
    ensures got.Some? && items[0].instr.pc != 0 ==>
      |got.value| == |FlatItems(items)| && StartsAt(got.value, items[0].instr.pc)
    ensures got.Some? && TraceLike(FlatItems(items), got.value) ==> Survives(cfg, s, items)
    ensures got.Some? ==>
      && |got.value| <= |FlatItems(items)| && (TraceEq(FlatItems(items), got.value, am) <==> Survives(cfg, s, items))
      && GetBuffer(cfg, s, am, PutChunk(cfg, s, items, q)) ==
         Resume(got.value, GetBuffer(cfg, AfterChunk(cfg, s, items), AmAfterAll(am, got.value), q))
  {
    var t := PutChunk(cfg, s, items, q);
    if items[0].instr.pc == 0 {
      ZeroPcIsLost(cfg, s, items);
      ResumeNothing(GetBuffer(cfg, s, am, q));
      got := Some([]);
    } else if SumClash(cfg, s, items) {
      ChunkClash(cfg, s, items, am, q);
      LeadChunk(cfg, s, am, t);
      got := None;
    } else {
      var recs := ChunkDecodes(cfg, s, items, am, q);
      LeadChunk(cfg, s, am, t);
      GotChunk(cfg, am, recs, AfterChunk(cfg, s, items), q, |t|);
      got := Some(recs);
    }
  }

  lemma ResumeNothing(r: Res<GotBuffer>)
    ensures Resume([], r) == r
  {
    if r.Good? { assert [] + r.val.recs == r.val.recs; }
  }

  /** The exact condition for a whole buffer; and whatever comes back, the decoder is left in
      the encoder's state, in front of what follows the footer. */
  lemma {:induction false} BufferExact(cfg: Config, s: Shared, gs: seq<Seg>, am: bool, rest: Stream)
    requires WfSegs(gs) && SegsAdmitted(cfg, s, gs)
    ensures var r := GetBuffer(cfg, s, am, PutBuffer(cfg, s, gs, rest));
            && InStep(r, FlatSegs(gs), AfterBuffer(cfg, s, gs), am, rest)
            && (Back(r, FlatSegs(gs), am) <==> SegsSurvive(cfg, s, gs))
    decreases |gs|
  {
    if gs == [] {
      assert PutBuffer(cfg, s, gs, rest)[1..] == rest;
    } else {
      var s1, tail := AfterSeg(cfg, s, gs[0]), gs[1..];
      var q := PutBuffer(cfg, s1, tail, rest);
      PutBufferLead(cfg, s1, tail, rest);
      var got := SegStep(cfg, s, gs[0], am, q);
      if got.Some? {
        var am1 := AmAfterAll(am, got.value);
        BufferExact(cfg, s1, tail, am1, rest);
        StepExact(FlatSeg(gs[0]), got.value, GetBuffer(cfg, s1, am1, q), FlatSegs(tail), AfterBuffer(cfg, s1, tail), am,
          rest);
      }
    }
  }

  // ------------------------------------------------------------ many buffers

  predicate WfBuffers(bufs: seq<seq<Seg>>) {
    forall i :: 0 <= i < |bufs| ==> WfSegs(bufs[i])
  }

  /** One compressor fed buffer after buffer. */
  function PutBuffers(cfg: Config, s: Shared, bufs: seq<seq<Seg>>, rest: Stream): Stream
    requires WfBuffers(bufs)
    decreases |bufs|
  {
    if bufs == [] then rest
    else PutBuffer(cfg, s, bufs[0], PutBuffers(cfg, AfterBuffer(cfg, s, bufs[0]), bufs[1..], rest))
  }

  function AfterBuffers(cfg: Config, s: Shared, bufs: seq<seq<Seg>>): Shared
    requires WfBuffers(bufs)
    decreases |bufs|
  {
    if bufs == [] then s else AfterBuffers(cfg, AfterBuffer(cfg, s, bufs[0]), bufs[1..])
  }

  predicate BuffersAdmitted(cfg: Config, s: Shared, bufs: seq<seq<Seg>>)
    requires WfBuffers(bufs)
    decreases |bufs|
  {
    bufs == [] || (SegsAdmitted(cfg, s, bufs[0]) && BuffersAdmitted(cfg, AfterBuffer(cfg, s, bufs[0]), bufs[1..]))
  }

  predicate BuffersSurvive(cfg: Config, s: Shared, bufs: seq<seq<Seg>>)
    requires WfBuffers(bufs)
    decreases |bufs|
  {
    bufs == [] || (SegsSurvive(cfg, s, bufs[0]) && BuffersSurvive(cfg, AfterBuffer(cfg, s, bufs[0]), bufs[1..]))
  }

  function FlatBuffers(bufs: seq<seq<Seg>>): seq<Rec> {
    if bufs == [] then [] else FlatSegs(bufs[0]) + FlatBuffers(bufs[1..])
  }

  function GetBuffers(cfg: Config, st: Shared, am: bool, n: nat, s: Stream): (r: Res<GotBuffer>)
    decreases n
  {
    if n == 0 then Good(GotBuffer([], st, am), s)
    else
      match GetBuffer(cfg, st, am, s)
      case Bad => Bad
      case Good(g, s1) => Resume(g.recs, GetBuffers(cfg, g.st, g.am, n - 1, s1))
  }

  /** One buffer, and then the others. */
  lemma {:induction false} OneBuffer(cfg: Config, st: Shared, am: bool, m: nat, n: nat, t: Stream, r: Res<GotBuffer>)
    requires m == n + 1 && r == GetBuffer(cfg, st, am, t)
    ensures GetBuffers(cfg, st, am, m, t) ==
            if r.Bad? then Bad else Resume(r.val.recs, GetBuffers(cfg, r.val.st, r.val.am, n, r.rest))
  {
  }

  /** The exact condition for every sequence of buffers fed to one compressor. */
  lemma {:induction false} TraceExact(cfg: Config, s: Shared, bufs: seq<seq<Seg>>, am: bool, rest: Stream)
    requires WfBuffers(bufs) && BuffersAdmitted(cfg, s, bufs)
    ensures var r := GetBuffers(cfg, s, am, |bufs|, PutBuffers(cfg, s, bufs, rest));
            && InStep(r, FlatBuffers(bufs), AfterBuffers(cfg, s, bufs), am, rest)
            && (Back(r, FlatBuffers(bufs), am) <==> BuffersSurvive(cfg, s, bufs))
    decreases |bufs|
  {
    if bufs != [] {
      var s1, tail := AfterBuffer(cfg, s, bufs[0]), bufs[1..];
      var q := PutBuffers(cfg, s1, tail, rest);
      BufferExact(cfg, s, bufs[0], am, q);
      var r := GetBuffer(cfg, s, am, PutBuffer(cfg, s, bufs[0], q));
      OneBuffer(cfg, s, am, |bufs|, |tail|, PutBuffer(cfg, s, bufs[0], q), r);
      if r.Good? {
        TraceExact(cfg, s1, tail, r.val.am, rest);
        StepExact(FlatSegs(bufs[0]), r.val.recs, GetBuffers(cfg, s1, r.val.am, |tail|, q), FlatBuffers(tail),
                  AfterBuffers(cfg, s1, tail), am, rest);
      }
    }
  }
}
