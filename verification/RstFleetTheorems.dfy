/** Several CPUs from new codecs: buffers are split by CPU, cut into chunks, written and read again. The
    conditions here speak of the records alone. */
module RstFleetTheorems {
  import opened Basics
  import opened RstTypes
  import opened RstCaches
  import opened EaCode
  import opened RstCodec
  import opened RstRoundTrip
  import opened RstAlike
  import opened RstExact
  import opened RstParts
  import opened RstFleet
  import opened RstInvariants
  import opened RstChunking
  import T = RstTheorems
  import C = RstCpu

  // ------------------------------------------------------------ new codecs

  function NewFleet(): (fleet: seq<Cpu>)
    ensures |fleet| == C.MAXCPUS
  {
    seq(C.MAXCPUS, _ => Cpu(Initial(), false, []))
  }

  function NewTracks(): (tracks: seq<Track>)
    ensures |tracks| == C.MAXCPUS
  {
    seq(C.MAXCPUS, _ => Track(Initial(), false, false, []))
  }

  lemma NewMatches()
    ensures FleetMatches(NewFleet(), NewTracks())
  {
  }

  /** For the first buffer of new codecs the condition is that all parts survive. */
  lemma {:induction false} FirstBuffer(cfg: Config, parts: seq<seq<Seg>>)
    requires WfParts(parts)
    ensures PartsKept(cfg, NewTracks(), parts, 0) <==>
            forall k :: 0 <= k < C.MAXCPUS ==> SegsSurvive(cfg, Initial(), parts[k])
  {
    forall k | 0 <= k < C.MAXCPUS
      ensures CpuKeeps(cfg, NewTracks()[k], parts[k]) <==> SegsSurvive(cfg, Initial(), parts[k])
    {
      FreshIsExact(cfg, Initial(), parts[k], false, Padded([], |FlatSegs(parts[k])|));
    }
  }

  // ------------------------------------------------------------ survivors, whatever the slots hold

  /** The decompressors' masks are those of the trace. */
  predicate Synced(tracks: seq<Track>) {
    forall k :: 0 <= k < |tracks| ==> tracks[k].mask == tracks[k].am
  }

  lemma {:induction false} SurvivorsKept(cfg: Config, tracks: seq<Track>, parts: seq<seq<Seg>>)
    requires |tracks| == C.MAXCPUS && WfParts(parts) && Synced(tracks)
    requires forall k :: 0 <= k < C.MAXCPUS ==> SegsSurvive(cfg, tracks[k].st, parts[k])
    ensures PartsKept(cfg, tracks, parts, 0) && Synced(AfterTracks(cfg, tracks, parts))
  {
    forall k | 0 <= k < C.MAXCPUS
      ensures CpuKeeps(cfg, tracks[k], parts[k])
      ensures AfterTracks(cfg, tracks, parts)[k].mask == AfterTracks(cfg, tracks, parts)[k].am
    {
      SurvivesIsKept(cfg, tracks[k].st, parts[k], tracks[k].mask, Padded(tracks[k].slots, |FlatSegs(parts[k])|));
    }
  }

  // ------------------------------------------------------------ from records to parts

  /** `b.parts` are the parts of `b.rst`, cut as the compressor cuts. */
  ghost predicate CutSplit(b: Split) {
    && |b.parts| == C.MAXCPUS && CpusFit(C.Cpus(C.Filed(b.rst)))
    && forall k :: 0 <= k < C.MAXCPUS ==> GoodSegs(b.parts[k]) && FlatSegs(b.parts[k]) == C.Filter(C.Filed(b.rst), k)
  }

  /** And no chunk of them ends before it has to. */
  ghost predicate FullyCut(b: Split) {
    |b.parts| == C.MAXCPUS && forall k :: 0 <= k < C.MAXCPUS ==> IsCut(C.Filter(C.Filed(b.rst), k), b.parts[k])
  }

  /** Well-formed records, and few addresses in every chunk that any CPU's part can be cut into. */
  ghost predicate FineBuffer(rst: seq<C.OnCpu<Rec>>) {
    forall k :: 0 <= k < C.MAXCPUS ==>
      T.WfRecs(C.Filter(C.Filed(rst), k)) && T.FewAddresses(C.Filter(C.Filed(rst), k))
  }

  ghost predicate LogsOk(tracks: seq<Track>, logs: seq<Log>) {
    |tracks| == |logs| == C.MAXCPUS && forall k :: 0 <= k < C.MAXCPUS ==> WfShared(tracks[k].st, logs[k])
  }

  lemma {:induction false} PartFine(cfg: Config, t: Track, log: Log, recs: seq<Rec>, part: seq<Seg>)
    requires WfShared(t.st, log) && GoodSegs(part) && FlatSegs(part) == recs && T.WfRecs(recs) && T.FewAddresses(recs)
    ensures WfSegs(part) && SegsAdmitted(cfg, t.st, part)
    ensures WfShared(AfterPart(cfg, t, part).st, LogBuffer(cfg, log, t.st, part))
  {
    assert recs[0..] == recs;
    T.SegsLight(recs, 0, part);
    T.SegsFit(cfg, t.st, log, part);
    RunKeeps(cfg, t.st, log, part);
  }

  lemma {:induction false} SplitFine(cfg: Config, tracks: seq<Track>, logs: seq<Log>, b: Split)
    returns (after: seq<Log>)
    requires LogsOk(tracks, logs) && CutSplit(b) && FineBuffer(b.rst)
    ensures PartsOf(cfg, tracks, C.Filed(b.rst), b.parts) && LogsOk(AfterTracks(cfg, tracks, b.parts), after)
  {
    var x := C.Filed(b.rst);
    forall k | 0 <= k < C.MAXCPUS
      ensures WfSegs(b.parts[k]) && SegsAdmitted(cfg, tracks[k].st, b.parts[k])
      ensures WfShared(AfterPart(cfg, tracks[k], b.parts[k]).st, LogBuffer(cfg, logs[k], tracks[k].st, b.parts[k]))
    {
      PartFine(cfg, tracks[k], logs[k], C.Filter(x, k), b.parts[k]);
    }
    after := seq(C.MAXCPUS, k requires 0 <= k < C.MAXCPUS && WfSegs(b.parts[k]) =>
                              LogBuffer(cfg, logs[k], tracks[k].st, b.parts[k]));
  }

  ghost predicate AllCut(bufs: seq<Split>) {
    forall i :: 0 <= i < |bufs| ==> CutSplit(bufs[i]) && FineBuffer(bufs[i].rst)
  }

  lemma AllCutTail(bufs: seq<Split>)
    requires AllCut(bufs) && bufs != []
    ensures AllCut(bufs[1..])
  {
    assert forall i :: 0 <= i < |bufs| - 1 ==> bufs[1..][i] == bufs[i + 1];
  }

  lemma {:induction false} SplitsFine(cfg: Config, tracks: seq<Track>, logs: seq<Log>, bufs: seq<Split>)
    requires LogsOk(tracks, logs) && AllCut(bufs)
    ensures SplitsOk(cfg, tracks, bufs)
    decreases |bufs|
  {
    if bufs != [] {
      var after := SplitFine(cfg, tracks, logs, bufs[0]);
      AllCutTail(bufs);
      SplitsFine(cfg, AfterTracks(cfg, tracks, bufs[0].parts), after, bufs[1..]);
    }
  }

  // ------------------------------------------------------------ records that always come back

  /** A buffer that always comes back: not empty, few runs, and none of the lossy kinds of records. */
  predicate PlainBuffer(cfg: Config, rst: seq<C.OnCpu<Rec>>) {
    && rst != [] && |C.RunsOf(C.Cpus(C.Filed(rst)))| < 0x1_0000
    && forall i :: 0 <= i < |rst| ==> T.Plain(cfg, rst[i].rec)
  }

  lemma {:induction false} FilterPlain(cfg: Config, x: seq<C.OnCpu<Rec>>, k: int)
    requires forall i :: 0 <= i < |x| ==> T.Plain(cfg, x[i].rec)
    ensures T.AllPlain(cfg, C.Filter(x, k))
  {
    if x != [] { FilterPlain(cfg, x[..|x| - 1], k); }
  }

  lemma {:induction false} PlainPart(cfg: Config, s: Shared, rst: seq<C.OnCpu<Rec>>, part: seq<Seg>, k: nat)
    requires PlainBuffer(cfg, rst) && GoodSegs(part) && FlatSegs(part) == C.Filter(C.Filed(rst), k)
    ensures WfSegs(part) && SegsSurvive(cfg, s, part)
  {
    var x := C.Filed(rst);
    assert forall i :: 0 <= i < |x| ==> x[i].rec == rst[i].rec;
    FilterPlain(cfg, x, k);
    T.PlainSurvive(cfg, s, part);
  }

  lemma {:induction false} PlainKept(cfg: Config, tracks: seq<Track>, bufs: seq<Split>)
    requires |tracks| == C.MAXCPUS && Synced(tracks) && AllCut(bufs) && AllFit(bufs)
    requires forall i :: 0 <= i < |bufs| ==> PlainBuffer(cfg, bufs[i].rst)
    ensures SplitsKept(cfg, tracks, bufs)
    decreases |bufs|
  {
    if bufs != [] {
      var b := bufs[0];
      forall k | 0 <= k < C.MAXCPUS
        ensures SegsSurvive(cfg, tracks[k].st, b.parts[k])
      {
        PlainPart(cfg, tracks[k].st, b.rst, b.parts[k], k);
      }
      SurvivorsKept(cfg, tracks, b.parts);
      AllCutTail(bufs);
      assert forall i :: 0 <= i < |bufs| - 1 ==> bufs[1..][i] == bufs[i + 1];
      PlainKept(cfg, AfterTracks(cfg, tracks, b.parts), bufs[1..]);
    }
  }

  // ------------------------------------------------------------ whole files

  /** A file written and read by new codecs, for any well-formed records in chunks of few addresses: it comes
      back exactly when its buffers are kept, and always when they are plain. */
  lemma {:induction false} FleetFromStart(cfg: Config, bufs: seq<Split>)
    requires AllCut(bufs)
    ensures AllFit(bufs)
    ensures var r := GetFile(cfg, NewFleet(), PutFile(cfg, NewTracks(), bufs));
            && (ReadBack(Masks(NewTracks()), bufs, r) <==> SplitsKept(cfg, NewTracks(), bufs))
            && ((forall i :: 0 <= i < |bufs| ==> PlainBuffer(cfg, bufs[i].rst)) ==>
               ReadBack(Masks(NewTracks()), bufs, r))
  {
    NewMatches();
    NewLogs(cfg, bufs);
    FromThere(cfg, NewFleet(), NewTracks(), bufs);
  }

  lemma NewLogs(cfg: Config, bufs: seq<Split>)
    requires AllCut(bufs)
    ensures SplitsOk(cfg, NewTracks(), bufs)
  {
    InitialOk();
    var logs := seq(C.MAXCPUS, _ => NoEvents());
    assert LogsOk(NewTracks(), logs);
    SplitsFine(cfg, NewTracks(), logs, bufs);
  }

  lemma {:induction false} FromThere(cfg: Config, fleet: seq<Cpu>, tracks: seq<Track>, bufs: seq<Split>)
    requires FleetMatches(fleet, tracks) && SplitsOk(cfg, tracks, bufs) && AllCut(bufs) && Synced(tracks)
    ensures AllFit(bufs)
    ensures var r := GetFile(cfg, fleet, PutFile(cfg, tracks, bufs));
            && (ReadBack(Masks(tracks), bufs, r) <==> SplitsKept(cfg, tracks, bufs))
            && ((forall i :: 0 <= i < |bufs| ==> PlainBuffer(cfg, bufs[i].rst)) ==> ReadBack(Masks(tracks), bufs, r))
  {
    MultiTraceExact(cfg, fleet, tracks, bufs);
    if forall i :: 0 <= i < |bufs| ==> PlainBuffer(cfg, bufs[i].rst) { PlainKept(cfg, tracks, bufs); }
  }

  ghost predicate PartsCut(x: seq<C.OnCpu<Rec>>, parts: seq<seq<Seg>>) {
    forall k :: 0 <= k < |parts| ==> CutOf(C.Filter(x, k), parts[k])
  }

  lemma PartsAreCut(b: Split)
    requires |b.parts| == C.MAXCPUS && CpusFit(C.Cpus(C.Filed(b.rst))) && PartsCut(C.Filed(b.rst), b.parts)
    ensures CutSplit(b) && FullyCut(b)
  {
    forall k | 0 <= k < C.MAXCPUS ensures CutOf(C.Filter(C.Filed(b.rst), k), b.parts[k]) {}
  }

  /** The parts of one buffer: sorted by CPU, and each list cut into segments. */
  method SplitBuffer(rst: seq<C.OnCpu<Rec>>) returns (b: Split)
    requires |rst| < 0x8000_0000 && forall i :: 0 <= i < |rst| ==> -1 <= rst[i].cpu < C.MAXCPUS
    ensures b.rst == rst && CutSplit(b) && FullyCut(b)
  {
    var splitter := new C.Splitter<Rec>();
    splitter.SortRstTrace(rst);
    var parts := CutParts(splitter.unirst[..], C.Filed(rst));
    b := Split(rst, parts);
    PartsAreCut(b);
  }

  method CutParts(lists: seq<seq<Rec>>, ghost x: seq<C.OnCpu<Rec>>) returns (parts: seq<seq<Seg>>)
    requires |lists| == C.MAXCPUS && forall k :: 0 <= k < C.MAXCPUS ==> lists[k] == C.Filter(x, k)
    ensures |parts| == C.MAXCPUS && PartsCut(x, parts)
  {
    var reader := new ChunkReader();
    parts := [];
    for k := 0 to C.MAXCPUS
      invariant |parts| == k && PartsCut(x, parts)
    {
      var gs := reader.Cut(lists[k]);
      parts := parts + [gs];
    }
  }

  /** The compressor for several CPUs, from openRstzip to closeRstzip; the file comes back as FleetFromStart says. */
  method CompressFleet(cfg: Config, traces: seq<seq<C.OnCpu<Rec>>>) returns (bufs: seq<Split>, z: seq<Block>)
    requires forall i :: 0 <= i < |traces| ==> |traces[i]| < 0x8000_0000 && FineBuffer(traces[i])
    requires forall i, j :: 0 <= i < |traces| && 0 <= j < |traces[i]| ==> -1 <= traces[i][j].cpu < C.MAXCPUS
    ensures |bufs| == |traces| && (forall i :: 0 <= i < |bufs| ==> bufs[i].rst == traces[i])
    ensures forall i :: 0 <= i < |bufs| ==> FullyCut(bufs[i])
    ensures AllCut(bufs) && AllFit(bufs) && z == PutFile(cfg, NewTracks(), bufs)
    ensures var r := GetFile(cfg, NewFleet(), z);
            && (ReadBack(Masks(NewTracks()), bufs, r) <==> SplitsKept(cfg, NewTracks(), bufs))
            && ((forall i :: 0 <= i < |bufs| ==> PlainBuffer(cfg, traces[i])) ==> ReadBack(Masks(NewTracks()), bufs, r))
  {
    bufs := SplitBuffers(traces);
    FleetFromStart(cfg, bufs);
    z := PutFile(cfg, NewTracks(), bufs);
  }

  method SplitBuffers(traces: seq<seq<C.OnCpu<Rec>>>) returns (bufs: seq<Split>)
    requires forall i :: 0 <= i < |traces| ==> |traces[i]| < 0x8000_0000 && FineBuffer(traces[i])
    requires forall i, j :: 0 <= i < |traces| && 0 <= j < |traces[i]| ==> -1 <= traces[i][j].cpu < C.MAXCPUS
    ensures |bufs| == |traces| && AllCut(bufs)
    ensures forall i :: 0 <= i < |bufs| ==> bufs[i].rst == traces[i] && FullyCut(bufs[i])
  {
    bufs := [];
    for i := 0 to |traces|
      invariant |bufs| == i && AllCut(bufs)
      invariant forall j :: 0 <= j < i ==> bufs[j].rst == traces[j] && FullyCut(bufs[j])
    {
      var b := SplitBuffer(traces[i]);
      bufs := bufs + [b];
    }
  }
}
