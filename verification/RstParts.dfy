/** The part of one CPU: reading so many records into slots that still hold an earlier buffer's records. */
module RstParts {
  import opened Basics
  import opened RstTypes
  import opened EaCode
  import opened RstCodec
  import opened RstRoundTrip
  import opened RstAlike
  import opened RstExact

  // ------------------------------------------------------------ reading so many records

  /** rstz_decompress when it stops short of a footer: it goes on one byte further, which is
      inside a unit of several bytes unless the unit is a byte. */
  function StopShort(st: Shared, am: bool, s: Stream): Res<GotBuffer>
    requires s != []
  {
    if s[0].B? then Good(GotBuffer([], st, am), s[1..]) else Bad
  }

  predicate ChunkTag(lead: byte) {
    lead == z_INSTR_T || lead == zL_INSTR_T
  }

  function ChunkAlone(am: bool, got: Res<GotRecs>): (r: Res<GotBuffer>)
    ensures r.Good? <==> got.Good?
    ensures r.Good? ==> r == Good(GotBuffer(got.val.recs, got.val.st, AmAfterAll(am, got.val.recs)), got.rest)
  {
    match got
    case Bad => Bad
    case Good(g, rest) => Good(GotBuffer(g.recs, g.st, AmAfterAll(am, g.recs)), rest)
  }

  function RecordAlone(am: bool, got: Res<GotRec>): (r: Res<GotBuffer>)
    ensures r.Good? <==> got.Good?
    ensures r.Good? ==> r == Good(GotBuffer([got.val.rec], got.val.st, AmAfter(am, got.val.rec)), got.rest)
  {
    match got
    case Bad => Bad
    case Good(g, rest) => Good(GotBuffer([g.rec], g.st, AmAfter(am, g.rec)), rest)
  }

  /** One chunk, or one record outside chunks. */
  function GetOne(cfg: Config, st: Shared, am: bool, s: Stream): (r: Res<GotBuffer>)
    requires s != []
    ensures r.Good? ==> |r.rest| < |s|
  {
    if ChunkTag(Lead(s[0], cfg.bigEndian)) then
      if s[0].C? then ChunkAlone(am, GetChunk(cfg, st, am, s[0], s[1..])) else Bad
    else RecordAlone(am, GetRec(cfg, st, s))
  }

  /** rstz_decompress, with `left` records still wanted; the current call of unzip_chunk has read
      `group` records outside chunks so far. What is left is looked at only between the calls; a
      footer ends the reading in any case. */
  function GetPart(cfg: Config, st: Shared, am: bool, left: int, group: nat, s: Stream): (r: Res<GotBuffer>)
    ensures r.Good? ==> |r.rest| < |s|
    decreases |s|, group, 1
  {
    if s == [] then Bad
    else
      var lead := Lead(s[0], cfg.bigEndian);
      if lead == z_FOOTER_T then Good(GotBuffer([], st, am), s[1..])
      else if group == 0 && left <= 0 then StopShort(st, am, s)
      else if group > 0 && (ChunkTag(lead) || group == MAX_CHUNKSIZE) then GetPart(cfg, st, am, left, 0, s)
      else PartAfter(cfg, left, if ChunkTag(lead) then 0 else group + 1, GetOne(cfg, st, am, s), |s|)
  }

  /** The rest of the part after a chunk or record; `bound` exceeds what is left of the stream. */
  function PartAfter(cfg: Config, left: int, group: nat, got: Res<GotBuffer>, bound: nat): (r: Res<GotBuffer>)
    requires got.Good? ==> |got.rest| < bound
    ensures r.Good? ==> |r.rest| < bound
    decreases bound, 0, 0
  {
    match got
    case Bad => Bad
    case Good(g, s1) => Resume(g.recs, GetPart(cfg, g.st, g.am, left - |g.recs|, group, s1))
  }

  lemma {:induction false} FlatNonempty(gs: seq<Seg>)
    requires WfSegs(gs) && gs != []
    ensures |FlatSegs(gs)| > 0
  {
    if gs[0].Run? {
      assert FlatItems(gs[0].items)[0] == gs[0].items[0].instr;
    }
  }

  /** GetBuffer takes one chunk or record after the other. */
  lemma {:induction false} BufferByOnes(cfg: Config, st: Shared, am: bool, t: Stream)
    requires t != [] && Lead(t[0], cfg.bigEndian) != z_FOOTER_T
    ensures GetBuffer(cfg, st, am, t) ==
            match GetOne(cfg, st, am, t)
            case Bad => Bad
            case Good(g, s1) => Resume(g.recs, GetBuffer(cfg, g.st, g.am, s1))
  {
    if ChunkTag(Lead(t[0], cfg.bigEndian)) && t[0].C? {
      LeadChunk(cfg, st, am, t);
      var r := GetChunk(cfg, st, am, t[0], t[1..]);
      if r.Good? { GotChunk(cfg, am, r.val.recs, r.val.st, r.rest, |t|); }
    }
  }

  /** What GetOne makes of the first segment of a buffer. */
  ghost predicate FirstGot(g: Seg, r: Res<GotBuffer>, s1: Shared, q: Stream) {
    r.Good? ==> r.rest == q && r.val.st == s1 && |r.val.recs| == |FlatSeg(g)|
  }

  /** The stream of a buffer begins with its first segment. */
  lemma {:induction false} FirstSeg(cfg: Config, s: Shared, gs: seq<Seg>, am: bool, rest: Stream)
    requires WfSegs(gs) && SegsAdmitted(cfg, s, gs) && gs != [] && (gs[0].Run? ==> gs[0].items[0].instr.pc != 0)
    ensures var t, s1 := PutBuffer(cfg, s, gs, rest), AfterSeg(cfg, s, gs[0]);
            && t != [] && Lead(t[0], cfg.bigEndian) != z_FOOTER_T
            && (ChunkTag(Lead(t[0], cfg.bigEndian)) <==> gs[0].Run?)
            && FirstGot(gs[0], GetOne(cfg, s, am, t), s1, PutBuffer(cfg, s1, gs[1..], rest))
  {
    var q := PutBuffer(cfg, AfterSeg(cfg, s, gs[0]), gs[1..], rest);
    PutBufferLead(cfg, AfterSeg(cfg, s, gs[0]), gs[1..], rest);
    match gs[0]
    case Lone(rec) =>
      PutRecLead(cfg, s, rec, -1);
      SameLead(PutRec(s, rec, -1), q);
      RecRoundTrip(cfg, s, rec, -1, q);
    case Run(items) =>
      var got := ChunkGot(cfg, s, items, am, q);
      FirstRun(cfg, s, items, am, AfterChunk(cfg, s, items), q, PutChunk(cfg, s, items, q), got,
               GetOne(cfg, s, am, PutChunk(cfg, s, items, q)));
  }

  lemma {:induction false} OneChunk(cfg: Config, st: Shared, am: bool, t: Stream, one: Res<GotBuffer>)
    requires t != [] && t[0].C? && ChunkTag(Lead(t[0], cfg.bigEndian)) && one == GetOne(cfg, st, am, t)
    ensures one == ChunkAlone(am, GetChunk(cfg, st, am, t[0], t[1..]))
  {
  }

  lemma {:induction false} ChunkFirst(items: seq<Item>, am: bool, got: Res<GotRecs>, s1: Shared, q: Stream)
    requires got.Good? ==> got.rest == q && got.val.st == s1 && |got.val.recs| == |FlatItems(items)|
    ensures FirstGot(Run(items), ChunkAlone(am, got), s1, q)
  {
  }

  /** GetChunk on a chunk that was written: it gives as many records, or an error. */
  lemma {:induction false} ChunkGot(cfg: Config, s: Shared, items: seq<Item>, am: bool, q: Stream)
    returns (got: Res<GotRecs>)
    requires WfItems(items) && Admitted(s, items) && Clear(cfg, q) && items[0].instr.pc != 0
    ensures var t := PutChunk(cfg, s, items, q);
            && t != [] && t[0].C? && t[0].rtype in {z_INSTR_T, zL_INSTR_T}
            && GetChunk(cfg, s, am, t[0], t[1..]) == got
    ensures got.Good? ==>
      got.rest == q && got.val.st == AfterChunk(cfg, s, items) && |got.val.recs| == |FlatItems(items)|
  {
    if SumClash(cfg, s, items) {
      ChunkClash(cfg, s, items, am, q);
      got := Bad;
    } else {
      var recs := ChunkDecodes(cfg, s, items, am, q);
      got := Good(GotRecs(recs, AfterChunk(cfg, s, items)), q);
    }
  }

  lemma {:induction false} FirstRun(cfg: Config, s: Shared, items: seq<Item>, am: bool, s1: Shared, q: Stream,
                                    t: Stream, got: Res<GotRecs>, one: Res<GotBuffer>)
    requires t != [] && t[0].C? && ChunkTag(t[0].rtype) && GetChunk(cfg, s, am, t[0], t[1..]) == got
    requires one == GetOne(cfg, s, am, t)
    requires got.Good? ==> got.rest == q && got.val.st == s1 && |got.val.recs| == |FlatItems(items)|
    ensures ChunkTag(Lead(t[0], cfg.bigEndian)) && FirstGot(Run(items), one, s1, q)
  {
    OneChunk(cfg, s, am, t, one);
    ChunkFirst(items, am, got, s1, q);
  }

  /** What the limited reader is to agree with. */
  ghost predicate Unlimited(cfg: Config, st: Shared, am: bool, left: int, group: nat, t: Stream) {
    GetPart(cfg, st, am, left, group, t) == GetBuffer(cfg, st, am, t)
  }

  lemma {:induction false} FooterPart(cfg: Config, st: Shared, am: bool, left: int, group: nat, t: Stream)
    requires t != [] && Lead(t[0], cfg.bigEndian) == z_FOOTER_T
    ensures Unlimited(cfg, st, am, left, group, t)
  {
  }

  /** A group ends. */
  lemma {:induction false} GroupTurn(cfg: Config, st: Shared, am: bool, left: int, group: nat, t: Stream)
    requires t != [] && Lead(t[0], cfg.bigEndian) != z_FOOTER_T && group > 0
    requires ChunkTag(Lead(t[0], cfg.bigEndian)) || group == MAX_CHUNKSIZE
    requires Unlimited(cfg, st, am, left, 0, t)
    ensures Unlimited(cfg, st, am, left, group, t)
  {
  }

  /** A chunk or record is read. */
  lemma {:induction false} ReadTurn(cfg: Config, st: Shared, am: bool, left: int, group: nat, t: Stream, group': nat,
                                    r: Res<GotBuffer>)
    requires t != [] && Lead(t[0], cfg.bigEndian) != z_FOOTER_T && left > 0
    requires group > 0 ==> !ChunkTag(Lead(t[0], cfg.bigEndian)) && group != MAX_CHUNKSIZE
    requires r == GetOne(cfg, st, am, t) && group' == if ChunkTag(Lead(t[0], cfg.bigEndian)) then 0 else group + 1
    ensures GetPart(cfg, st, am, left, group, t) == PartAfter(cfg, left, group', r, |t|)
  {
  }

  lemma {:induction false} AfterRead(cfg: Config, left: int, group: nat, r: Res<GotBuffer>, bound: nat, left': int)
    requires r.Good? && |r.rest| < bound && left' == left - |r.val.recs|
    ensures PartAfter(cfg, left, group, r, bound) ==
      Resume(r.val.recs, GetPart(cfg, r.val.st, r.val.am, left', group, r.rest))
  {
  }

  /** With room for all records the limit makes no difference. */
  lemma {:induction false} PartReads(cfg: Config, s: Shared, gs: seq<Seg>, am: bool, left: int, group: nat, t: Stream,
                                     rest: Stream)
    requires WfSegs(gs) && SegsAdmitted(cfg, s, gs) && group <= MAX_CHUNKSIZE && left >= |FlatSegs(gs)|
    requires t == PutBuffer(cfg, s, gs, rest)
    ensures Unlimited(cfg, s, am, left, group, t)
    decreases |gs|, group, 1
  {
    if gs == [] {
      FooterPart(cfg, s, am, left, group, t);
    } else if gs[0].Run? && gs[0].items[0].instr.pc == 0 {
      ZeroPcIsLost(cfg, s, gs[0].items);
      PartReads(cfg, s, gs[1..], am, left, group, t, rest);
    } else {
      FlatNonempty(gs);
      FirstSeg(cfg, s, gs, am, rest);
      if group > 0 && (gs[0].Run? || group == MAX_CHUNKSIZE) {
        PartReads(cfg, s, gs, am, left, 0, t, rest);
        GroupTurn(cfg, s, am, left, group, t);
      } else {
        ReadsFirst(cfg, s, gs, am, left, group, t, rest);
      }
    }
  }

  lemma {:induction false} ReadsFirst(cfg: Config, s: Shared, gs: seq<Seg>, am: bool, left: int, group: nat, t: Stream,
                                      rest: Stream)
    requires WfSegs(gs) && SegsAdmitted(cfg, s, gs) && group <= MAX_CHUNKSIZE && left >= |FlatSegs(gs)| && left > 0
    requires gs != [] && t != [] && Lead(t[0], cfg.bigEndian) != z_FOOTER_T
    requires group > 0 ==> gs[0].Lone? && group != MAX_CHUNKSIZE
    requires ChunkTag(Lead(t[0], cfg.bigEndian)) <==> gs[0].Run?
    requires var s1 := AfterSeg(cfg, s, gs[0]);
             FirstGot(gs[0], GetOne(cfg, s, am, t), s1, PutBuffer(cfg, s1, gs[1..], rest))
    ensures Unlimited(cfg, s, am, left, group, t)
    decreases |gs|, group, 0
  {
    var r, group': nat := GetOne(cfg, s, am, t), if gs[0].Run? then 0 else group + 1;
    ReadTurn(cfg, s, am, left, group, t, group', r);
    BufferByOnes(cfg, s, am, t);
    if r.Good? {
      var left' := left - |r.val.recs|;
      PartReads(cfg, r.val.st, gs[1..], r.val.am, left', group', r.rest, rest);
      AfterRead(cfg, left, group', r, |t|, left');
    }
  }

  // ------------------------------------------------------------ slots

  /** A slot as calloc leaves it. */
  const ZEROED: Rec := Other(0, 0)

  /** Records written over the first slots. */
  function Over(recs: seq<Rec>, slots: seq<Rec>): seq<Rec> {
    recs + (if |recs| <= |slots| then slots[|recs|..] else [])
  }

  /** The first `n` slots. */
  function Padded(slots: seq<Rec>, n: nat): (s: seq<Rec>)
    ensures |s| == n
  {
    seq(n, i requires 0 <= i < n => if i < |slots| then slots[i] else ZEROED)
  }

  lemma PaddedCanons(slots: seq<Rec>, n: nat)
    ensures Canons(Padded(slots, n)) == Padded(Canons(slots), n)
  {
  }

  lemma PaddedOver(recs: seq<Rec>, slots: seq<Rec>, n: nat)
    requires |recs| <= n
    ensures Padded(Over(recs, slots), n) == recs + Padded(slots, n)[|recs|..]
  {
  }

  lemma OverTwice(list: seq<Rec>, recs: seq<Rec>, slots: seq<Rec>)
    requires |recs| <= |list|
    ensures Canons(Over(list, Over(recs, slots))) == Over(Canons(list), Canons(slots))
  {
    var a, b := Canons(Over(list, Over(recs, slots))), Over(Canons(list), Canons(slots));
    assert |a| == |b|;
    forall i | 0 <= i < |a|
      ensures a[i] == b[i]
    {
      if i >= |list| { assert Over(recs, slots)[i] == slots[i]; }
    }
  }

  // ------------------------------------------------------------ exactly which parts come back

  predicate AllAtZero(gs: seq<Seg>)
    requires WfSegs(gs)
  {
    forall i :: 0 <= i < |gs| ==> AtZero(gs[i])
  }

  /**
   * The parts that come back. `mask` is PSTATE.AM in the trace and `am` the decompressor's, `was` what its
   * slots hold. Chunks at pc 0 are not written; they come back only when nothing else follows them and
   * the slots happen to hold their very records.
   */
  predicate Kept(cfg: Config, s: Shared, gs: seq<Seg>, mask: bool, am: bool, was: seq<Rec>)
    requires WfSegs(gs)
    decreases |gs|
  {
    if gs == [] then true
    else if AtZero(gs[0]) then AllAtZero(gs) && was == Expected(FlatSegs(gs), mask)
    else
      var recs := FlatSeg(gs[0]);
      && SegSurvives(cfg, s, gs[0]) && SameDerived(recs, mask, am) && |recs| <= |was|
      && Kept(cfg, AfterSeg(cfg, s, gs[0]), gs[1..], AmAfterAll(mask, recs), AmAfterAll(am, recs), was[|recs|..])
  }

  /** The decompressor's mask after the records that were written. */
  function DecodedAm(gs: seq<Seg>, am: bool): bool
    requires WfSegs(gs)
    decreases |gs|
  {
    if gs == [] || AtZero(gs[0]) then am else DecodedAm(gs[1..], AmAfterAll(am, FlatSeg(gs[0])))
  }

  /** Chunks at pc 0 leave nothing in the stream. */
  lemma {:induction false} NothingWritten(cfg: Config, s: Shared, gs: seq<Seg>, am: bool, rest: Stream)
    requires WfSegs(gs) && AllAtZero(gs)
    ensures GetBuffer(cfg, s, am, PutBuffer(cfg, s, gs, rest)) == Good(GotBuffer([], s, am), rest)
    decreases |gs|
  {
    if gs == [] {
      assert PutBuffer(cfg, s, gs, rest)[1..] == rest;
    } else {
      ZeroPcIsLost(cfg, s, gs[0].items);
      NothingWritten(cfg, s, gs[1..], am, rest);
    }
  }

  /** Otherwise the first record read is the first one written. */
  lemma {:induction false} FirstWritten(cfg: Config, s: Shared, gs: seq<Seg>, am: bool, rest: Stream)
    requires WfSegs(gs) && SegsAdmitted(cfg, s, gs) && !AllAtZero(gs)
    ensures var r := GetBuffer(cfg, s, am, PutBuffer(cfg, s, gs, rest));
            r.Good? ==> r.val.recs != [] && !ZeroFirst(r.val.recs)
    decreases |gs|
  {
    if AtZero(gs[0]) {
      ZeroPcIsLost(cfg, s, gs[0].items);
      FirstWritten(cfg, s, gs[1..], am, rest);
    } else {
      var s1 := AfterSeg(cfg, s, gs[0]);
      PutBufferLead(cfg, s1, gs[1..], rest);
      FirstSegWritten(cfg, s, gs[0], am, PutBuffer(cfg, s1, gs[1..], rest));
    }
  }

  lemma {:induction false} FirstSegWritten(cfg: Config, s: Shared, g: Seg, am: bool, q: Stream)
    requires WfSeg(g) && SegAdmitted(s, g) && !AtZero(g) && Clear(cfg, q)
    ensures var r := GetBuffer(cfg, s, am, PutSeg(cfg, s, g, q));
            r.Good? ==> r.val.recs != [] && !ZeroFirst(r.val.recs)
  {
    var got := SegStep(cfg, s, g, am, q);
    if got.Some? { ResumeFirst(got.value, GetBuffer(cfg, AfterSeg(cfg, s, g), AmAfterAll(am, got.value), q)); }
  }

  lemma ResumeFirst(recs: seq<Rec>, r: Res<GotBuffer>)
    requires recs != [] && !ZeroFirst(recs)
    ensures Resume(recs, r).Good? ==> Resume(recs, r).val.recs != [] && !ZeroFirst(Resume(recs, r).val.recs)
  {
  }

  /** What was read, and after it what the slots held. */
  ghost predicate SlotsBack(gs: seq<Seg>, recs: seq<Rec>, was: seq<Rec>, mask: bool)
    requires |recs| <= |was|
  {
    TraceEq(FlatSegs(gs), recs + was[|recs|..], mask)
  }

  lemma {:induction false} ZeroStep(cfg: Config, s: Shared, gs: seq<Seg>, mask: bool, am: bool, was: seq<Rec>,
                                    rest: Stream)
    requires WfSegs(gs) && SegsAdmitted(cfg, s, gs) && |was| == |FlatSegs(gs)| && gs != [] && AtZero(gs[0])
    ensures PartOk(cfg, s, gs, mask, am, was, GetBuffer(cfg, s, am, PutBuffer(cfg, s, gs, rest)))
  {
    BufferExact(cfg, s, gs, am, rest);
    if AllAtZero(gs) {
      NothingWritten(cfg, s, gs, am, rest);
      assert [] + was[0..] == was;
      EqIsExpected(FlatSegs(gs), was, mask);
    } else {
      FirstWritten(cfg, s, gs, am, rest);
      var r := GetBuffer(cfg, s, am, PutBuffer(cfg, s, gs, rest));
      if r.Good? { ZeroDiffers(gs, r.val.recs, was, mask); }
    }
  }

  lemma {:induction false} ZeroDiffers(gs: seq<Seg>, recs: seq<Rec>, was: seq<Rec>, mask: bool)
    requires WfSegs(gs) && gs != [] && AtZero(gs[0]) && |recs| <= |was| && recs != [] && !ZeroFirst(recs)
    ensures !SlotsBack(gs, recs, was, mask)
  {
    var list := recs + was[|recs|..];
    assert list[0] == recs[0] && FlatSegs(gs)[0] == gs[0].items[0].instr;
  }

  /** The theorem about one part, for a result of reading it. */
  ghost predicate PartOk(cfg: Config, s: Shared, gs: seq<Seg>, mask: bool, am: bool, was: seq<Rec>, r: Res<GotBuffer>)
    requires WfSegs(gs)
  {
    var kept := Kept(cfg, s, gs, mask, am, Canons(was));
    && (r.Bad? ==> !kept)
    && (r.Good? ==> |r.val.recs| <= |was| && (SlotsBack(gs, r.val.recs, was, mask) <==> kept))
    && (r.Good? && kept ==> r.val.am == DecodedAm(gs, am))
  }

  lemma TraceEqHead(a: seq<Rec>, b: seq<Rec>, mask: bool, am: bool, survives: bool)
    requires (TraceLike(a, b) ==> survives) && (TraceEq(a, b, am) <==> survives)
    ensures TraceEq(a, b, mask) <==> survives && SameDerived(a, mask, am)
  {
    if TraceEq(a, b, mask) { EqIsLike(a, b, mask); }
    if survives { OtherMask(a, b, mask, am); }
  }

  lemma {:induction false} SlotsStep(gs: seq<Seg>, got: seq<Rec>, recs: seq<Rec>, was: seq<Rec>, mask: bool)
    requires gs != [] && |got| == |FlatSeg(gs[0])| && |got| + |recs| <= |was|
    ensures SlotsBack(gs, got + recs, was, mask) <==>
      TraceEq(FlatSeg(gs[0]), got, mask) && SlotsBack(gs[1..], recs, was[|got|..], AmAfterAll(mask, FlatSeg(gs[0])))
  {
    ListStep(got, recs, was);
    TraceEqAppend(FlatSeg(gs[0]), got, FlatSegs(gs[1..]), recs + was[|got|..][|recs|..], mask);
  }

  lemma ListStep(got: seq<Rec>, recs: seq<Rec>, was: seq<Rec>)
    requires |got| + |recs| <= |was|
    ensures (got + recs) + was[|got + recs|..] == got + (recs + was[|got|..][|recs|..])
  {
  }

  lemma CanonsDrop(was: seq<Rec>, n: nat)
    requires n <= |was|
    ensures Canons(was)[n..] == Canons(was[n..])
  {
  }

  lemma {:induction false} KeptStep(cfg: Config, s: Shared, gs: seq<Seg>, mask: bool, am: bool, was: seq<Rec>, n: nat)
    requires WfSegs(gs) && gs != [] && !AtZero(gs[0]) && |was| == |FlatSegs(gs)| && n == |FlatSeg(gs[0])|
    ensures var recs := FlatSeg(gs[0]);
            Kept(cfg, s, gs, mask, am, Canons(was)) <==>
            && SegSurvives(cfg, s, gs[0]) && SameDerived(recs, mask, am)
            && Kept(cfg, AfterSeg(cfg, s, gs[0]), gs[1..], AmAfterAll(mask, recs), AmAfterAll(am, recs),
               Canons(was[n..]))
  {
    CanonsDrop(was, n);
  }

  lemma {:induction false} WrittenStep(cfg: Config, s: Shared, gs: seq<Seg>, mask: bool, am: bool, was: seq<Rec>,
                                       got: seq<Rec>, r: Res<GotBuffer>)
    requires WfSegs(gs) && |was| == |FlatSegs(gs)| && gs != [] && !AtZero(gs[0])
    requires |got| == |FlatSeg(gs[0])| && (TraceLike(FlatSeg(gs[0]), got) ==> SegSurvives(cfg, s, gs[0]))
    requires TraceEq(FlatSeg(gs[0]), got, am) <==> SegSurvives(cfg, s, gs[0])
    requires PartOk(cfg, AfterSeg(cfg, s, gs[0]), gs[1..], AmAfterAll(mask, FlatSeg(gs[0])), AmAfterAll(am, got),
                    was[|got|..], r)
    ensures PartOk(cfg, s, gs, mask, am, was, Resume(got, r))
  {
    KeptStep(cfg, s, gs, mask, am, was, |got|);
    TraceEqHead(FlatSeg(gs[0]), got, mask, am, SegSurvives(cfg, s, gs[0]));
    if SegSurvives(cfg, s, gs[0]) { TraceEqAm(FlatSeg(gs[0]), got, am); }
    if r.Good? { SlotsStep(gs, got, r.val.recs, was, mask); }
  }

  /** The exact condition for one part, read into slots that hold `was`. */
  lemma {:induction false} PartKept(cfg: Config, s: Shared, gs: seq<Seg>, mask: bool, am: bool, was: seq<Rec>,
                                    rest: Stream)
    requires WfSegs(gs) && SegsAdmitted(cfg, s, gs) && |was| == |FlatSegs(gs)|
    ensures PartOk(cfg, s, gs, mask, am, was, GetBuffer(cfg, s, am, PutBuffer(cfg, s, gs, rest)))
    decreases |gs|
  {
    if gs == [] {
      NothingWritten(cfg, s, gs, am, rest);
    } else if AtZero(gs[0]) {
      ZeroStep(cfg, s, gs, mask, am, was, rest);
    } else {
      var recs, s1, tail := FlatSeg(gs[0]), AfterSeg(cfg, s, gs[0]), gs[1..];
      var q := PutBuffer(cfg, s1, tail, rest);
      PutBufferLead(cfg, s1, tail, rest);
      var got := SegStep(cfg, s, gs[0], am, q);
      if got.Some? {
        var am1, mask1, was1 := AmAfterAll(am, got.value), AmAfterAll(mask, recs), was[|got.value|..];
        PartKept(cfg, s1, tail, mask1, am1, was1, rest);
        WrittenStep(cfg, s, gs, mask, am, was, got.value, GetBuffer(cfg, s1, am1, q));
      }
    }
  }

  /** With no chunk at pc 0 and one mask, the parts that come back are those that survive. */
  lemma {:induction false} SurvivesIsKept(cfg: Config, s: Shared, gs: seq<Seg>, am: bool, was: seq<Rec>)
    requires WfSegs(gs) && |was| == |FlatSegs(gs)| && SegsSurvive(cfg, s, gs)
    ensures Kept(cfg, s, gs, am, am, was) && DecodedAm(gs, am) == AmAfterAll(am, FlatSegs(gs))
    decreases |gs|
  {
    if gs != [] {
      var recs := FlatSeg(gs[0]);
      SameMask(recs, am);
      SurvivesIsKept(cfg, AfterSeg(cfg, s, gs[0]), gs[1..], AmAfterAll(am, recs), was[|recs|..]);
      AmAppend(am, recs, FlatSegs(gs[1..]));
    }
  }

  /** In slots that have never been filled nothing but survivors comes back. */
  lemma {:induction false} FreshIsExact(cfg: Config, s: Shared, gs: seq<Seg>, am: bool, was: seq<Rec>)
    requires WfSegs(gs) && |was| == |FlatSegs(gs)| && forall i :: 0 <= i < |was| ==> was[i] == ZEROED
    ensures Kept(cfg, s, gs, am, am, was) <==> SegsSurvive(cfg, s, gs)
    decreases |gs|
  {
    if gs != [] {
      var recs := FlatSeg(gs[0]);
      if AtZero(gs[0]) {
        assert FlatSegs(gs)[0] == gs[0].items[0].instr;
        assert Expected(FlatSegs(gs), am)[0] == Expect(FlatSegs(gs)[0], am);
      } else {
        SameMask(recs, am);
        FreshIsExact(cfg, AfterSeg(cfg, s, gs[0]), gs[1..], AmAfterAll(am, recs), was[|recs|..]);
      }
    }
  }

  // ------------------------------------------------------------ one CPU

  /** The decompressor of a CPU: its caches, PSTATE.AM, and its slots. */
  datatype Cpu = Cpu(st: Shared, am: bool, slots: seq<Rec>)

  datatype Part = Part(list: seq<Rec>, cpu: Cpu)

  /** Read the part of a CPU that has `total` records; that many slots are then taken as its records. */
  function GetCpu(cfg: Config, cpu: Cpu, total: nat, s: Stream): (r: Res<Part>)
    ensures r.Good? ==> |r.val.list| == total
  {
    if total == 0 then Good(Part([], cpu), s)
    else
      match GetPart(cfg, cpu.st, cpu.am, total, 0, s)
      case Bad => Bad
      case Good(g, s1) => Good(PartIn(g, cpu.slots, total), s1)
  }

  function PartIn(g: GotBuffer, was: seq<Rec>, total: nat): Part {
    var slots := Over(g.recs, was);
    var list := Padded(slots, total);
    Part(list, Cpu(g.st, g.am, Over(list, slots)))
  }

  function PutCpu(cfg: Config, s: Shared, part: seq<Seg>, rest: Stream): Stream
    requires WfSegs(part)
  {
    if part == [] then rest else PutBuffer(cfg, s, part, rest)
  }

  /** What is known of a CPU on the side that compresses: the caches, PSTATE.AM in the trace and as it has
      been written, and the records that the slots on the other side hold. */
  datatype Track = Track(st: Shared, mask: bool, am: bool, slots: seq<Rec>)

  ghost predicate Matches(cpu: Cpu, t: Track) {
    cpu.st == t.st && cpu.am == t.am && Canons(cpu.slots) == t.slots
  }

  /** The exact condition for a CPU's part. */
  predicate CpuKeeps(cfg: Config, t: Track, part: seq<Seg>)
    requires WfSegs(part)
  {
    Kept(cfg, t.st, part, t.mask, t.am, Padded(t.slots, |FlatSegs(part)|))
  }

  function AfterPart(cfg: Config, t: Track, part: seq<Seg>): Track
    requires WfSegs(part)
  {
    var recs := FlatSegs(part);
    Track(AfterBuffer(cfg, t.st, part), AmAfterAll(t.mask, recs), DecodedAm(part, t.am),
          Over(Expected(recs, t.mask), t.slots))
  }

  lemma {:induction false} PartInOk(g: GotBuffer, was: seq<Rec>, part: seq<Seg>, mask: bool)
    requires |g.recs| <= |FlatSegs(part)|
    ensures var n := |FlatSegs(part)|;
            var p := PartIn(g, was, n);
            && p.list == g.recs + Padded(was, n)[|g.recs|..]
            && (TraceEq(FlatSegs(part), p.list, mask) ==>
                Canons(p.cpu.slots) == Over(Expected(FlatSegs(part), mask), Canons(was)))
  {
    var n := |FlatSegs(part)|;
    PaddedOver(g.recs, was, n);
    var list := PartIn(g, was, n).list;
    OverTwice(list, g.recs, was);
    EqIsExpected(FlatSegs(part), list, mask);
  }

  /** One CPU's part, whatever its slots held: it comes back if and only if it is kept, and then both sides
      are in step again. */
  lemma {:induction false} CpuExact(cfg: Config, cpu: Cpu, t: Track, part: seq<Seg>, total: nat, q: Stream)
    requires Matches(cpu, t) && WfSegs(part) && SegsAdmitted(cfg, t.st, part) && total == |FlatSegs(part)|
    ensures var r := GetCpu(cfg, cpu, total, PutCpu(cfg, t.st, part, q));
            && (r.Good? ==> r.rest == q)
            && (r.Good? && TraceEq(FlatSegs(part), r.val.list, t.mask) <==> CpuKeeps(cfg, t, part))
            && (r.Good? && CpuKeeps(cfg, t, part) ==> Matches(r.val.cpu, AfterPart(cfg, t, part)))
  {
    if part != [] {
      FlatNonempty(part);
      var u := PutBuffer(cfg, t.st, part, q);
      var was := Padded(cpu.slots, total);
      BufferExact(cfg, t.st, part, cpu.am, q);
      PartReads(cfg, t.st, part, cpu.am, total, 0, u, q);
      assert Unlimited(cfg, t.st, cpu.am, total, 0, u);
      PartKept(cfg, t.st, part, t.mask, t.am, was, q);
      PaddedCanons(cpu.slots, total);
      var g := GetBuffer(cfg, t.st, cpu.am, u);
      if g.Good? { PartInOk(g.val, cpu.slots, part, t.mask); }
    }
  }

  // ------------------------------------------------------------ a record that comes back though it is lost

  function Step(pc: u64): Item {
    Item(Instr(false, false, false, false, false, false, false, 0, pc, 0), [])
  }

  lemma {:induction false} StepsSurvive(cfg: Config, s: Shared, items: seq<Item>)
    requires WfItems(items) && items[0].instr.pc != 0 && forall i :: 0 <= i < |items| ==> items[i].after == []
    ensures Survives(cfg, s, items)
  {
    NoFollowers(items);
  }

  lemma {:induction false} NoFollowers(items: seq<Item>)
    requires AllInstr(items) && forall i :: 0 <= i < |items| ==> items[i].after == []
    ensures Followers(items) == []
  {
    if items != [] { NoFollowers(items[1..]); }
  }

  lemma OneStep(x: Item)
    requires x.after == []
    ensures FlatItems([x]) == [x.instr]
  {
    assert [x][1..] == [];
  }

  lemma TwoSteps(x: Item, y: Item)
    requires x.after == [] && y.after == []
    ensures FlatItems([x, y]) == [x.instr, y.instr]
  {
    assert [x, y][1..] == [y];
    OneStep(y);
  }

  lemma OneRun(items: seq<Item>)
    ensures FlatSegs([Run(items)]) == FlatItems(items)
  {
    assert [Run(items)][1..] == [];
  }

  /** Instructions at 2^64 - 4 and 0 in one chunk, and in the next buffer chunks at 8 and at 0. The chunk at 0 is not
      written, and comes back all the same: its slot still holds that very record from the first buffer. */
  lemma {:induction false} LostButBack(cfg: Config, t: Track, a: Item, b: Item, z: Item) returns (t1: Track)
    requires !t.mask && !t.am && t.slots == [] && a == Step(0xFFFF_FFFF_FFFF_FFFC) && b == Step(8) && z == Step(0)
    ensures WfSegs([Run([a, z])]) && WfSegs([Run([b]), Run([z])])
    ensures CpuKeeps(cfg, t, [Run([a, z])]) && t1 == AfterPart(cfg, t, [Run([a, z])])
    ensures CpuKeeps(cfg, t1, [Run([b]), Run([z])]) && !SegsSurvive(cfg, t1.st, [Run([b]), Run([z])])
  {
    t1 := FirstKept(cfg, t, [a, z], a, z);
    SecondKept(cfg, t1, b, z);
  }

  lemma {:induction false} FirstKept(cfg: Config, t: Track, items: seq<Item>, a: Item, z: Item) returns (t1: Track)
    requires !t.mask && !t.am && t.slots == [] && items == [a, z] && a == Step(0xFFFF_FFFF_FFFF_FFFC) && z == Step(0)
    ensures WfSegs([Run(items)]) && CpuKeeps(cfg, t, [Run(items)]) && t1 == AfterPart(cfg, t, [Run(items)])
    ensures !t1.mask && !t1.am && |t1.slots| == 2 && t1.slots[1] == NormInstr(z.instr, false)
  {
    var first := [Run(items)];
    TwoSteps(a, z);
    OneRun(items);
    StepsSurvive(cfg, t.st, items);
    OneSurvives(cfg, t.st, first);
    SurvivesIsKept(cfg, t.st, first, false, Padded(t.slots, 2));
    t1 := AfterPart(cfg, t, first);
    FirstSlots(t1.slots, a.instr, z.instr);
    InstrsKeepAm([a.instr, z.instr], false);
  }

  lemma OneSurvives(cfg: Config, s: Shared, gs: seq<Seg>)
    requires WfSegs(gs) && |gs| == 1 && SegSurvives(cfg, s, gs[0])
    ensures SegsSurvive(cfg, s, gs)
  {
  }

  lemma {:induction false} InstrsKeepAm(recs: seq<Rec>, am: bool)
    requires forall i :: 0 <= i < |recs| ==> recs[i].Instr?
    ensures AmAfterAll(am, recs) == am
    decreases |recs|
  {
    if recs != [] { InstrsKeepAm(recs[1..], am); }
  }

  lemma FirstSlots(slots: seq<Rec>, x: Rec, y: Rec)
    requires slots == Over(Expected([x, y], false), []) && x.Instr? && y.Instr?
    ensures |slots| == 2 && slots[1] == NormInstr(y, false)
  {
    assert [x, y][1..] == [y] && [y][1..] == [];
  }

  lemma {:induction false} SecondKept(cfg: Config, t: Track, b: Item, z: Item)
    requires !t.mask && !t.am && |t.slots| == 2 && b == Step(8) && z == Step(0)
    requires t.slots[1] == NormInstr(z.instr, false)
    ensures WfSegs([Run([b]), Run([z])])
    ensures CpuKeeps(cfg, t, [Run([b]), Run([z])]) && !SegsSurvive(cfg, t.st, [Run([b]), Run([z])])
  {
    var gs, last := [Run([b]), Run([z])], [Run([z])];
    assert gs[1..] == last;
    OneStep(b);
    OneStep(z);
    OneRun([z]);
    StepsSurvive(cfg, t.st, [b]);
    SecondCond(cfg, t.st, gs, last, b.instr, z.instr, Padded(t.slots, 2));
  }

  lemma {:induction false} SecondCond(cfg: Config, s: Shared, gs: seq<Seg>, last: seq<Seg>, b: Rec, z: Rec,
                                      was: seq<Rec>)
    requires WfSegs(gs) && |gs| == 2 && |last| == 1 && gs[1..] == last && !AtZero(gs[0]) && AtZero(last[0])
    requires SegSurvives(cfg, s, gs[0]) && FlatSeg(gs[0]) == [b] && FlatSegs(last) == [z] && b.Instr? && z.Instr?
    requires |was| == 2 && was[1] == NormInstr(z, false)
    ensures Kept(cfg, s, gs, false, false, was) && !SegsSurvive(cfg, s, gs)
  {
    SameMask([b], false);
    InstrsKeepAm([b], false);
    OneExpected(z);
    assert was[1..] == [was[1]];
  }

  lemma OneExpected(z: Rec)
    requires z.Instr?
    ensures Expected([z], false) == [NormInstr(z, false)]
  {
    assert [z][1..] == [];
  }
}
