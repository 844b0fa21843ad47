/** compressX and decompressX: a buffer of records from up to 64 CPUs is split, each CPU's part
    goes through that CPU's own codec, the CPU numbers go through the count code, and the
    decompressor merges the parts again, until it meets an empty buffer. */
module RstFleet {
  import opened Basics
  import opened RstTypes
  import opened EaCode
  import opened RstCodec
  import opened RstRoundTrip
  import opened RstAlike
  import opened RstExact
  import opened RstParts
  import C = RstCpu

  // ------------------------------------------------------------ all CPUs

  predicate WfParts(parts: seq<seq<Seg>>) {
    |parts| == C.MAXCPUS && forall c :: 0 <= c < C.MAXCPUS ==> WfSegs(parts[c])
  }

  /** The compressed parts of all CPUs that have records, in CPU order, in front of `rest`. */
  function PutFleet(cfg: Config, tracks: seq<Track>, parts: seq<seq<Seg>>, c: nat, rest: Stream): Stream
    requires |tracks| == C.MAXCPUS && WfParts(parts) && c <= C.MAXCPUS
    decreases C.MAXCPUS - c, rest
  {
    if c == C.MAXCPUS then rest
    else PutCpu(cfg, tracks[c].st, parts[c], PutFleet(cfg, tracks, parts, c + 1, rest))
  }

  /** Decompress the part of every CPU whose run lengths add up to something. */
  function GetFleet(cfg: Config, fleet: seq<Cpu>, totals: seq<nat>, c: nat, s: Stream): (r: Res<seq<Part>>)
    requires |fleet| == |totals| == C.MAXCPUS && c <= C.MAXCPUS
    ensures r.Good? ==> |r.val| == C.MAXCPUS - c
    decreases C.MAXCPUS - c, s
  {
    if c == C.MAXCPUS then Good([], s)
    else
      match GetCpu(cfg, fleet[c], totals[c], s)
      case Bad => Bad
      case Good(p, s1) => Prepend(p, GetFleet(cfg, fleet, totals, c + 1, s1))
  }

  function Prepend(p: Part, r: Res<seq<Part>>): (r': Res<seq<Part>>)
    ensures r.Good? <==> r'.Good?
    ensures r.Good? ==> r'.rest == r.rest && r'.val == [p] + r.val
  {
    match r
    case Bad => Bad
    case Good(ps, rest) => Good([p] + ps, rest)
  }

  /** The decompressors are where the compressor's side expects them. */
  ghost predicate FleetMatches(fleet: seq<Cpu>, tracks: seq<Track>) {
    |fleet| == |tracks| == C.MAXCPUS && forall k :: 0 <= k < C.MAXCPUS ==> Matches(fleet[k], tracks[k])
  }

  /** Every CPU's part is admitted, and its total is its number of records. */
  ghost predicate FleetOk(cfg: Config, tracks: seq<Track>, parts: seq<seq<Seg>>, totals: seq<nat>) {
    && |tracks| == |totals| == C.MAXCPUS && WfParts(parts)
    && forall k :: 0 <= k < C.MAXCPUS ==>
       SegsAdmitted(cfg, tracks[k].st, parts[k]) && totals[k] == |FlatSegs(parts[k])|
  }

  ghost predicate PartBack(t: Track, part: seq<Seg>, p: Part) {
    TraceEq(FlatSegs(part), p.list, t.mask)
  }

  /** The parts of CPUs `c` and up have come back. */
  ghost predicate PartsBack(tracks: seq<Track>, parts: seq<seq<Seg>>, c: nat, ps: seq<Part>)
    requires |tracks| == |parts| == C.MAXCPUS
  {
    c + |ps| == C.MAXCPUS && forall i :: 0 <= i < |ps| ==> PartBack(tracks[c + i], parts[c + i], ps[i])
  }

  /** Their decompressors are where they are expected afterwards. */
  ghost predicate PartsMatch(after: seq<Track>, c: nat, ps: seq<Part>)
    requires |after| == C.MAXCPUS
  {
    c + |ps| == C.MAXCPUS && forall i :: 0 <= i < |ps| ==> Matches(ps[i].cpu, after[c + i])
  }

  predicate PartsKept(cfg: Config, tracks: seq<Track>, parts: seq<seq<Seg>>, c: nat)
    requires |tracks| == C.MAXCPUS && WfParts(parts)
  {
    forall k :: c <= k < C.MAXCPUS ==> CpuKeeps(cfg, tracks[k], parts[k])
  }

  /** What is known of the CPUs after a buffer has come back. */
  function AfterTracks(cfg: Config, tracks: seq<Track>, parts: seq<seq<Seg>>): (t: seq<Track>)
    requires |tracks| == C.MAXCPUS && WfParts(parts)
    ensures |t| == C.MAXCPUS
  {
    seq(C.MAXCPUS, k requires 0 <= k < C.MAXCPUS => AfterPart(cfg, tracks[k], parts[k]))
  }

  /** What is proved of reading the parts of CPUs `c` and up, when `kept` says that all of them are kept. */
  ghost predicate FleetResult(tracks: seq<Track>, parts: seq<seq<Seg>>, after: seq<Track>, kept: bool, c: nat,
                              rest: Stream, r: Res<seq<Part>>)
    requires |tracks| == |parts| == |after| == C.MAXCPUS
  {
    && (r.Good? ==> r.rest == rest && c + |r.val| == C.MAXCPUS)
    && (r.Good? && PartsBack(tracks, parts, c, r.val) <==> kept)
    && (r.Good? && kept ==> PartsMatch(after, c, r.val))
  }

  lemma {:induction false} FleetExact(cfg: Config, fleet: seq<Cpu>, tracks: seq<Track>, parts: seq<seq<Seg>>,
                                      totals: seq<nat>, after: seq<Track>, c: nat, rest: Stream)
    requires FleetMatches(fleet, tracks) && FleetOk(cfg, tracks, parts, totals) && c <= C.MAXCPUS
    requires after == AfterTracks(cfg, tracks, parts)
    ensures FleetResult(tracks, parts, after, PartsKept(cfg, tracks, parts, c), c, rest,
                        GetFleet(cfg, fleet, totals, c, PutFleet(cfg, tracks, parts, c, rest)))
    decreases C.MAXCPUS - c
  {
    if c < C.MAXCPUS {
      var d := c + 1;
      var q := PutFleet(cfg, tracks, parts, d, rest);
      CpuExact(cfg, fleet[c], tracks[c], parts[c], totals[c], q);
      FleetExact(cfg, fleet, tracks, parts, totals, after, d, rest);
      KeptCons(cfg, tracks, parts, c, d);
      var u := PutCpu(cfg, tracks[c].st, parts[c], q);
      PutStep(cfg, tracks, parts, c, d, rest);
      FleetStep(cfg, fleet, tracks, parts, totals, after, c, d, rest, q, u, CpuKeeps(cfg, tracks[c], parts[c]),
                PartsKept(cfg, tracks, parts, d));
    }
  }

  lemma PutStep(cfg: Config, tracks: seq<Track>, parts: seq<seq<Seg>>, c: nat, d: nat, rest: Stream)
    requires |tracks| == C.MAXCPUS && WfParts(parts) && c < C.MAXCPUS && d == c + 1
    ensures PutFleet(cfg, tracks, parts, c, rest) ==
            PutCpu(cfg, tracks[c].st, parts[c], PutFleet(cfg, tracks, parts, d, rest))
  {
  }

  lemma GetStep(cfg: Config, fleet: seq<Cpu>, totals: seq<nat>, c: nat, d: nat, s: Stream, r: Res<Part>)
    requires |fleet| == |totals| == C.MAXCPUS && c < C.MAXCPUS && d == c + 1 && r == GetCpu(cfg, fleet[c], totals[c], s)
    ensures GetFleet(cfg, fleet, totals, c, s) ==
            if r.Bad? then Bad else Prepend(r.val, GetFleet(cfg, fleet, totals, d, r.rest))
  {
  }

  /** One CPU, and the others. */
  lemma {:induction false} FleetStep(cfg: Config, fleet: seq<Cpu>, tracks: seq<Track>, parts: seq<seq<Seg>>,
                                     totals: seq<nat>, after: seq<Track>, c: nat, d: nat, rest: Stream, q: Stream,
                                     u: Stream, first: bool, kept: bool)
    requires |fleet| == |tracks| == |totals| == |after| == |parts| == C.MAXCPUS && c < C.MAXCPUS && d == c + 1
    requires FleetResult(tracks, parts, after, kept, d, rest, GetFleet(cfg, fleet, totals, d, q))
    requires CpuResult(tracks[c], parts[c], after[c], first, q, GetCpu(cfg, fleet[c], totals[c], u))
    ensures FleetResult(tracks, parts, after, first && kept, c, rest, GetFleet(cfg, fleet, totals, c, u))
  {
    var r := GetCpu(cfg, fleet[c], totals[c], u);
    GetStep(cfg, fleet, totals, c, d, u, r);
    if r.Good? {
      FleetCons(tracks, parts, after, first, kept, c, d, rest, r.val, GetFleet(cfg, fleet, totals, d, q));
    }
  }

  /** What is proved of one CPU. */
  ghost predicate CpuResult(t: Track, part: seq<Seg>, after: Track, kept: bool, q: Stream, r: Res<Part>) {
    && (r.Good? ==> r.rest == q)
    && (r.Good? && PartBack(t, part, r.val) <==> kept)
    && (r.Good? && kept ==> Matches(r.val.cpu, after))
  }

  lemma KeptCons(cfg: Config, tracks: seq<Track>, parts: seq<seq<Seg>>, c: nat, d: nat)
    requires |tracks| == C.MAXCPUS && WfParts(parts) && c < C.MAXCPUS && d == c + 1
    ensures PartsKept(cfg, tracks, parts, c) <==>
            CpuKeeps(cfg, tracks[c], parts[c]) && PartsKept(cfg, tracks, parts, d)
  {
  }

  lemma {:induction false} FleetCons(tracks: seq<Track>, parts: seq<seq<Seg>>, after: seq<Track>, first: bool,
                                     kept: bool, c: nat, d: nat, rest: Stream, p: Part, tail: Res<seq<Part>>)
    requires |tracks| == |parts| == |after| == C.MAXCPUS && c < C.MAXCPUS && d == c + 1
    requires (PartBack(tracks[c], parts[c], p) <==> first) && (first ==> Matches(p.cpu, after[c]))
    requires FleetResult(tracks, parts, after, kept, d, rest, tail)
    ensures FleetResult(tracks, parts, after, first && kept, c, rest, Prepend(p, tail))
  {
    if tail.Good? {
      BackCons(tracks, parts, c, d, p, tail.val);
      if first && kept { MatchCons(after, c, d, p, tail.val); }
    }
  }

  lemma {:induction false} MatchCons(after: seq<Track>, c: nat, d: nat, p: Part, tail: seq<Part>)
    requires |after| == C.MAXCPUS && c < C.MAXCPUS && d == c + 1
    requires Matches(p.cpu, after[c]) && PartsMatch(after, d, tail)
    ensures PartsMatch(after, c, [p] + tail)
  {
    var ps := [p] + tail;
    forall i | 0 <= i < |ps|
      ensures Matches(ps[i].cpu, after[c + i])
    {
      if i > 0 {
        var j := i - 1;
        assert ps[i] == tail[j] && c + i == d + j;
      }
    }
  }

  lemma {:induction false} BackCons(tracks: seq<Track>, parts: seq<seq<Seg>>, c: nat, d: nat, p: Part, tail: seq<Part>)
    requires |tracks| == |parts| == C.MAXCPUS && c < C.MAXCPUS && d == c + 1 && d + |tail| == C.MAXCPUS
    ensures PartsBack(tracks, parts, c, [p] + tail) <==>
            PartBack(tracks[c], parts[c], p) && PartsBack(tracks, parts, d, tail)
  {
    if PartBack(tracks[c], parts[c], p) && PartsBack(tracks, parts, d, tail) {
      BackJoin(tracks, parts, c, d, p, tail);
    }
    if PartsBack(tracks, parts, c, [p] + tail) { BackParts(tracks, parts, c, d, p, tail); }
  }

  lemma {:induction false} BackJoin(tracks: seq<Track>, parts: seq<seq<Seg>>, c: nat, d: nat, p: Part, tail: seq<Part>)
    requires |tracks| == |parts| == C.MAXCPUS && c < C.MAXCPUS && d == c + 1 && d + |tail| == C.MAXCPUS
    requires PartBack(tracks[c], parts[c], p) && PartsBack(tracks, parts, d, tail)
    ensures PartsBack(tracks, parts, c, [p] + tail)
  {
    var ps := [p] + tail;
    forall i | 0 <= i < |ps|
      ensures PartBack(tracks[c + i], parts[c + i], ps[i])
    {
      if i > 0 {
        var j := i - 1;
        assert ps[i] == tail[j] && c + i == d + j;
      }
    }
  }

  lemma {:induction false} BackParts(tracks: seq<Track>, parts: seq<seq<Seg>>, c: nat, d: nat, p: Part, tail: seq<Part>)
    requires |tracks| == |parts| == C.MAXCPUS && c < C.MAXCPUS && d == c + 1
    requires PartsBack(tracks, parts, c, [p] + tail)
    ensures PartBack(tracks[c], parts[c], p) && PartsBack(tracks, parts, d, tail)
  {
    var ps := [p] + tail;
    assert PartBack(tracks[c + 0], parts[c + 0], ps[0]);
    forall i | 0 <= i < |tail|
      ensures PartBack(tracks[d + i], parts[d + i], tail[i])
    {
      var j := i + 1;
      assert d + i == c + j && ps[j] == tail[i];
    }
  }

  // ------------------------------------------------------------ one buffer of the file

  /** What compressX writes: the coded run lengths, then the compressed parts. */
  datatype Block = Block(counts: seq<byte>, recs: Stream)

  /** What decompressX gives: the records, and whether it will read no more. */
  datatype Output = Output(buf: seq<C.OnCpu<Rec>>, fleet: seq<Cpu>, done: bool)

  predicate CpusFit(cpus: seq<int>) {
    |cpus| < 0x8000_0000 && forall i :: 0 <= i < |cpus| ==> 0 <= cpus[i] < C.MAXCPUS
  }

  /** The number of runs goes through a 16-bit variable, so only so many runs are kept. */
  function KeptRuns(cpus: seq<int>): (runs: seq<C.CpuCount>)
    requires CpusFit(cpus)
    ensures forall i :: 0 <= i < |runs| ==> C.Countable(runs[i]) && runs[i].cpu < C.MAXCPUS
  {
    C.RunsOfOk(cpus);
    C.RunBound(cpus);
    var runs := C.RunsOf(cpus);
    runs[..|runs| % 0x1_0000]
  }

  /** The coded runs; those of an empty buffer are one run of no records on CPU -1. */
  function PutRuns(cpus: seq<int>, bigEndian: bool): seq<byte>
    requires CpusFit(cpus)
  {
    if cpus == [] then [255, 0] else C.PutCounts(KeptRuns(cpus), bigEndian)
  }

  function PutBlock(cfg: Config, tracks: seq<Track>, cpus: seq<int>, parts: seq<seq<Seg>>): Block
    requires |tracks| == C.MAXCPUS && WfParts(parts) && CpusFit(cpus)
  {
    Block(PutRuns(cpus, cfg.bigEndian), PutFleet(cfg, tracks, parts, 0, []))
  }

  function Totals(runs: seq<C.CpuCount>): (t: seq<nat>)
    requires C.NonNegative(runs)
    ensures |t| == C.MAXCPUS
  {
    seq(C.MAXCPUS, c requires C.NonNegative(runs) => Total(runs, c))
  }

  function Total(runs: seq<C.CpuCount>, c: int): nat
    requires C.NonNegative(runs)
  {
    C.TotalIsCount(runs, c);
    C.TotalFor(runs, c)
  }

  function ListsOf(ps: seq<Part>): (l: seq<seq<Rec>>)
    ensures |l| == |ps|
  {
    seq(|ps|, i requires 0 <= i < |ps| => ps[i].list)
  }

  function CpusOf(ps: seq<Part>): (f: seq<Cpu>)
    ensures |f| == |ps|
  {
    seq(|ps|, i requires 0 <= i < |ps| => ps[i].cpu)
  }

  /** decompressX; None for its error exits, and where it would take records of a CPU outside its arrays.
      A run of no records on such a CPU adds nothing to any total and copies nothing. */
  function GetBlock(cfg: Config, fleet: seq<Cpu>, b: Block): (r: Option<Output>)
    requires |fleet| == C.MAXCPUS
    ensures r.Some? ==> |r.value.fleet| == C.MAXCPUS
  {
    match C.GetCounts(b.counts, cfg.bigEndian)
    case Truncated => None
    case Counts(runs) =>
      if exists i :: 0 <= i < |runs| && runs[i].cpu >= C.MAXCPUS && runs[i].count != 0 then None
      else
        match GetFleet(cfg, fleet, Totals(runs), 0, b.recs)
        case Bad => None
        case Good(ps, _) => Some(Merged(runs, ps))
  }

  function Merged(runs: seq<C.CpuCount>, ps: seq<Part>): Output
    requires C.NonNegative(runs)
  {
    var buf := C.Replay(C.Expand(runs), ListsOf(ps));
    Output(buf, CpusOf(ps), buf == [])
  }

  /** The merged trace follows the same CPUs, and every CPU's records have come back. */
  ghost predicate MergedBack(x: seq<C.OnCpu<Rec>>, y: seq<C.OnCpu<Rec>>, masks: seq<bool>)
    requires |masks| == C.MAXCPUS
  {
    C.Cpus(y) == C.Cpus(x) && forall k :: 0 <= k < C.MAXCPUS ==> TraceEq(C.Filter(x, k), C.Filter(y, k), masks[k])
  }

  /** PSTATE.AM of every CPU, in the trace. */
  function Masks(tracks: seq<Track>): (m: seq<bool>)
    ensures |m| == |tracks|
  {
    seq(|tracks|, k requires 0 <= k < |tracks| => tracks[k].mask)
  }

  function MasksAfter(masks: seq<bool>, x: seq<C.OnCpu<Rec>>): (m: seq<bool>)
    ensures |m| == |masks|
  {
    seq(|masks|, k requires 0 <= k < |masks| => AmAfterAll(masks[k], C.Filter(x, k)))
  }

  /** `parts` is the trace `x`, split by CPU and cut into segments. */
  ghost predicate PartsOf(cfg: Config, tracks: seq<Track>, x: seq<C.OnCpu<Rec>>, parts: seq<seq<Seg>>) {
    && |tracks| == C.MAXCPUS && WfParts(parts) && CpusFit(C.Cpus(x))
    && forall k :: 0 <= k < C.MAXCPUS ==>
       FlatSegs(parts[k]) == C.Filter(x, k) && SegsAdmitted(cfg, tracks[k].st, parts[k])
  }

  /** Merging lists that are as long as the CPUs' parts. */
  lemma {:induction false} MergeExact(x: seq<C.OnCpu<Rec>>, lists: seq<seq<Rec>>, masks: seq<bool>)
    requires |lists| == |masks| == C.MAXCPUS && C.CpusOk(x)
    requires forall k :: 0 <= k < C.MAXCPUS ==> |lists[k]| == |C.Filter(x, k)|
    ensures |C.Replay(C.Cpus(x), lists)| == |x|
    ensures MergedBack(x, C.Replay(C.Cpus(x), lists), masks) <==>
            forall k :: 0 <= k < C.MAXCPUS ==> TraceEq(C.Filter(x, k), lists[k], masks[k])
  {
    var cpus := C.Cpus(x);
    forall k | 0 <= k < C.MAXCPUS
      ensures |lists[k]| == C.CountOf(cpus, k)
    {
      C.FilterCount(x, k);
    }
    assert C.Covers(cpus, lists);
    C.ReplayFull(cpus, lists);
    C.MergeThenSplit(cpus, lists, 0);
    forall k | 0 <= k < C.MAXCPUS
      ensures C.Filter(C.Replay(cpus, lists), k) == lists[k]
    {
      C.MergeThenSplit(cpus, lists, k);
      assert lists[k][..|lists[k]|] == lists[k];
    }
  }

  /** Too many runs: fewer records come out than went in, whatever the parts hold. */
  lemma {:induction false} RunsLost(cfg: Config, fleet: seq<Cpu>, cpus: seq<int>, recs: Stream)
    requires |fleet| == C.MAXCPUS && CpusFit(cpus) && |C.RunsOf(cpus)| >= 0x1_0000
    ensures var r := GetBlock(cfg, fleet, Block(PutRuns(cpus, cfg.bigEndian), recs));
            r.Some? ==> |r.value.buf| < |cpus|
  {
    var runs, kept := C.RunsOf(cpus), KeptRuns(cpus);
    C.CountsRoundTrip(kept, cfg.bigEndian);
    C.RunsOfOk(cpus);
    C.ExpandRuns(cpus);
    C.FewerRuns(runs, |runs| % 0x1_0000);
    C.ExpandLength(runs);
    C.ExpandLength(kept);
    var f := GetFleet(cfg, fleet, Totals(kept), 0, recs);
    if f.Good? { C.ReplayFull(C.Expand(kept), ListsOf(f.val)); }
  }

  lemma {:induction false} TotalsAre(x: seq<C.OnCpu<Rec>>)
    requires C.CpusOk(x)
    ensures C.NonNegative(C.RunsOf(C.Cpus(x)))
    ensures forall k :: 0 <= k < C.MAXCPUS ==> Totals(C.RunsOf(C.Cpus(x)))[k] == |C.Filter(x, k)|
  {
    C.ExpandRuns(C.Cpus(x));
    forall k | 0 <= k < C.MAXCPUS
      ensures Totals(C.RunsOf(C.Cpus(x)))[k] == |C.Filter(x, k)|
    {
      C.TotalIsCount(C.RunsOf(C.Cpus(x)), k);
      C.FilterCount(x, k);
    }
  }

  /** What decompressX makes of run lengths as compressX writes them. */
  lemma {:induction false} BlockReads(cfg: Config, fleet: seq<Cpu>, runs: seq<C.CpuCount>, recs: Stream)
    requires |fleet| == C.MAXCPUS
    requires forall i :: 0 <= i < |runs| ==> C.Countable(runs[i]) && runs[i].cpu < C.MAXCPUS
    ensures C.NonNegative(runs)
    ensures var f := GetFleet(cfg, fleet, Totals(runs), 0, recs);
            GetBlock(cfg, fleet, Block(C.PutCounts(runs, cfg.bigEndian), recs)) ==
            if f.Bad? then None else Some(Merged(runs, f.val))
  {
    C.CountsRoundTrip(runs, cfg.bigEndian);
  }

  /** Few enough runs: the file holds them all. */
  lemma {:induction false} RunsKept(cfg: Config, fleet: seq<Cpu>, cpus: seq<int>, recs: Stream)
    requires |fleet| == C.MAXCPUS && CpusFit(cpus) && cpus != [] && |C.RunsOf(cpus)| < 0x1_0000
    ensures C.NonNegative(C.RunsOf(cpus)) && C.Expand(C.RunsOf(cpus)) == cpus
    ensures var f := GetFleet(cfg, fleet, Totals(C.RunsOf(cpus)), 0, recs);
            GetBlock(cfg, fleet, Block(PutRuns(cpus, cfg.bigEndian), recs)) ==
            if f.Bad? then None else Some(Merged(C.RunsOf(cpus), f.val))
  {
    assert KeptRuns(cpus) == C.RunsOf(cpus);
    BlockReads(cfg, fleet, KeptRuns(cpus), recs);
    C.ExpandRuns(cpus);
  }

  lemma MasksFollow(cfg: Config, tracks: seq<Track>, x: seq<C.OnCpu<Rec>>, parts: seq<seq<Seg>>)
    requires PartsOf(cfg, tracks, x, parts)
    ensures Masks(AfterTracks(cfg, tracks, parts)) == MasksAfter(Masks(tracks), x)
  {
  }

  /** A buffer comes back in its order, through run lengths, codecs and merge, and reading goes on. */
  ghost predicate BlockBack(cfg: Config, fleet: seq<Cpu>, masks: seq<bool>, x: seq<C.OnCpu<Rec>>, b: Block)
    requires |fleet| == |masks| == C.MAXCPUS
  {
    var r := GetBlock(cfg, fleet, b);
    r.Some? && !r.value.done && MergedBack(x, r.value.buf, masks)
  }

  /** The exact condition for a buffer of several CPUs: it is not empty, has fewer than 65536 CPU runs, and
      every CPU's part is kept. All codecs are then in step for the next one. */
  lemma {:induction false} MultiExact(cfg: Config, fleet: seq<Cpu>, tracks: seq<Track>, rst: seq<C.OnCpu<Rec>>,
                                      parts: seq<seq<Seg>>)
    requires FleetMatches(fleet, tracks) && PartsOf(cfg, tracks, C.Filed(rst), parts)
    ensures var x := C.Filed(rst);
            var b := PutBlock(cfg, tracks, C.Cpus(x), parts);
            && (BlockBack(cfg, fleet, Masks(tracks), x, b) <==>
                rst != [] && |C.RunsOf(C.Cpus(x))| < 0x1_0000 && PartsKept(cfg, tracks, parts, 0))
            && (BlockBack(cfg, fleet, Masks(tracks), x, b) ==>
                FleetMatches(GetBlock(cfg, fleet, b).value.fleet, AfterTracks(cfg, tracks, parts)))
  {
    var x := C.Filed(rst);
    var b := PutBlock(cfg, tracks, C.Cpus(x), parts);
    if rst == [] {
      NothingInParts(cfg, tracks, x, parts);
      EmptyBlock(cfg, fleet);
    } else if |C.RunsOf(C.Cpus(x))| >= 0x1_0000 {
      RunsLost(cfg, fleet, C.Cpus(x), b.recs);
    } else {
      FewRuns(cfg, fleet, tracks, x, parts, b, GetBlock(cfg, fleet, b));
    }
  }

  lemma {:induction false} FewRuns(cfg: Config, fleet: seq<Cpu>, tracks: seq<Track>, x: seq<C.OnCpu<Rec>>,
                                   parts: seq<seq<Seg>>, b: Block, r: Option<Output>)
    requires FleetMatches(fleet, tracks) && PartsOf(cfg, tracks, x, parts) && x != []
    requires |C.RunsOf(C.Cpus(x))| < 0x1_0000
    requires b == PutBlock(cfg, tracks, C.Cpus(x), parts) && r == GetBlock(cfg, fleet, b)
    ensures r.Some? && !r.value.done && MergedBack(x, r.value.buf, Masks(tracks)) <==> PartsKept(cfg, tracks, parts, 0)
    ensures r.Some? && PartsKept(cfg, tracks, parts, 0) ==>
      FleetMatches(r.value.fleet, AfterTracks(cfg, tracks, parts))
  {
    OnRealCpus(x);
    var runs, after := C.RunsOf(C.Cpus(x)), AfterTracks(cfg, tracks, parts);
    RunsKept(cfg, fleet, C.Cpus(x), b.recs);
    var f := PartsRead(cfg, fleet, tracks, x, parts, runs, after);
    if f.Good? { MergedOk(cfg, tracks, x, parts, after, runs, f.val); }
  }

  /** The CPUs' parts, read by the totals of the runs. */
  lemma {:induction false} PartsRead(cfg: Config, fleet: seq<Cpu>, tracks: seq<Track>, x: seq<C.OnCpu<Rec>>,
                                     parts: seq<seq<Seg>>, runs: seq<C.CpuCount>, after: seq<Track>)
    returns (f: Res<seq<Part>>)
    requires FleetMatches(fleet, tracks) && PartsOf(cfg, tracks, x, parts) && C.CpusOk(x)
    requires runs == C.RunsOf(C.Cpus(x)) && after == AfterTracks(cfg, tracks, parts)
    ensures C.NonNegative(runs) && f == GetFleet(cfg, fleet, Totals(runs), 0, PutFleet(cfg, tracks, parts, 0, []))
    ensures f.Good? ==> |f.val| == C.MAXCPUS && forall k :: 0 <= k < C.MAXCPUS ==> |f.val[k].list| == |C.Filter(x, k)|
    ensures FleetResult(tracks, parts, after, PartsKept(cfg, tracks, parts, 0), 0, [], f)
  {
    TotalsAre(x);
    f := FleetRead(cfg, fleet, tracks, parts, Totals(runs), after, 0, PutFleet(cfg, tracks, parts, 0, []));
  }

  lemma {:induction false} FleetRead(cfg: Config, fleet: seq<Cpu>, tracks: seq<Track>, parts: seq<seq<Seg>>,
                                     totals: seq<nat>, after: seq<Track>, c: nat, s: Stream)
    returns (f: Res<seq<Part>>)
    requires FleetMatches(fleet, tracks) && FleetOk(cfg, tracks, parts, totals) && c == 0
    requires after == AfterTracks(cfg, tracks, parts) && s == PutFleet(cfg, tracks, parts, c, [])
    ensures f == GetFleet(cfg, fleet, totals, c, s)
    ensures f.Good? ==> |f.val| == C.MAXCPUS && forall k :: 0 <= k < C.MAXCPUS ==> |f.val[k].list| == totals[k]
    ensures FleetResult(tracks, parts, after, PartsKept(cfg, tracks, parts, c), c, [], f)
  {
    FleetExact(cfg, fleet, tracks, parts, totals, after, c, []);
    GoodLengths(cfg, fleet, totals, c, s);
    f := GetFleet(cfg, fleet, totals, c, s);
    if f.Good? { assert forall k :: 0 <= k < C.MAXCPUS ==> |f.val[k].list| == totals[c + k]; }
  }

  lemma {:induction false} MergedOk(cfg: Config, tracks: seq<Track>, x: seq<C.OnCpu<Rec>>, parts: seq<seq<Seg>>,
                                    after: seq<Track>, runs: seq<C.CpuCount>, ps: seq<Part>)
    requires PartsOf(cfg, tracks, x, parts) && C.CpusOk(x) && |ps| == |after| == C.MAXCPUS && x != []
    requires C.NonNegative(runs) && C.Expand(runs) == C.Cpus(x)
    requires forall k :: 0 <= k < C.MAXCPUS ==> |ps[k].list| == |C.Filter(x, k)|
    ensures var o := Merged(runs, ps);
            && (!o.done && MergedBack(x, o.buf, Masks(tracks)) <==> PartsBack(tracks, parts, 0, ps))
            && (PartsMatch(after, 0, ps) ==> FleetMatches(o.fleet, after))
  {
    MergedExact(cfg, tracks, x, parts, after, ps);
  }

  lemma OnRealCpus(x: seq<C.OnCpu<Rec>>)
    requires CpusFit(C.Cpus(x))
    ensures C.CpusOk(x)
  {
    assert forall i :: 0 <= i < |x| ==> C.Cpus(x)[i] == x[i].cpu;
  }

  /** Every list is as long as its CPU's total. */
  lemma {:induction false} GoodLengths(cfg: Config, fleet: seq<Cpu>, totals: seq<nat>, c: nat, s: Stream)
    requires |fleet| == |totals| == C.MAXCPUS && c <= C.MAXCPUS
    ensures var r := GetFleet(cfg, fleet, totals, c, s);
            r.Good? ==> forall i :: 0 <= i < |r.val| ==> |r.val[i].list| == totals[c + i]
    decreases C.MAXCPUS - c
  {
    if c < C.MAXCPUS {
      var r := GetCpu(cfg, fleet[c], totals[c], s);
      if r.Good? {
        GoodLengths(cfg, fleet, totals, c + 1, r.rest);
        LengthCons(totals, c, c + 1, r.val, GetFleet(cfg, fleet, totals, c + 1, r.rest));
      }
    }
  }

  lemma LengthCons(totals: seq<nat>, c: nat, d: nat, p: Part, tail: Res<seq<Part>>)
    requires d == c + 1 && |p.list| == if c < |totals| then totals[c] else 0
    requires tail.Good? ==> d + |tail.val| == |totals|
    requires tail.Good? ==> forall i :: 0 <= i < |tail.val| ==> |tail.val[i].list| == totals[d + i]
    ensures var r := Prepend(p, tail);
            r.Good? ==> c + |r.val| == |totals| && forall i :: 0 <= i < |r.val| ==> |r.val[i].list| == totals[c + i]
  {
    if tail.Good? {
      var ps := [p] + tail.val;
      forall i | 0 <= i < |ps|
        ensures |ps[i].list| == totals[c + i]
      {
        if i > 0 {
          var j := i - 1;
          assert ps[i] == tail.val[j] && c + i == d + j;
        }
      }
    }
  }

  lemma {:induction false} MergedExact(cfg: Config, tracks: seq<Track>, x: seq<C.OnCpu<Rec>>, parts: seq<seq<Seg>>,
                                       after: seq<Track>, ps: seq<Part>)
    requires PartsOf(cfg, tracks, x, parts) && C.CpusOk(x) && |ps| == |after| == C.MAXCPUS
    requires forall k :: 0 <= k < C.MAXCPUS ==> |ps[k].list| == |C.Filter(x, k)|
    ensures |C.Replay(C.Cpus(x), ListsOf(ps))| == |x|
    ensures MergedBack(x, C.Replay(C.Cpus(x), ListsOf(ps)), Masks(tracks)) <==> PartsBack(tracks, parts, 0, ps)
    ensures PartsMatch(after, 0, ps) ==> FleetMatches(CpusOf(ps), after)
  {
    forall k | 0 <= k < C.MAXCPUS
      ensures |ListsOf(ps)[k]| == |C.Filter(x, k)|
      ensures PartBack(tracks[0 + k], parts[0 + k], ps[k]) <==>
              TraceEq(C.Filter(x, k), ListsOf(ps)[k], Masks(tracks)[k])
    {
    }
    MergeExact(x, ListsOf(ps), Masks(tracks));
    if PartsMatch(after, 0, ps) {
      forall k | 0 <= k < C.MAXCPUS
        ensures Matches(CpusOf(ps)[k], after[k])
      {
        assert Matches(ps[k].cpu, after[0 + k]);
      }
    }
  }

  // ------------------------------------------------------------ buffers that give nothing

  /** Without run lengths, or with run lengths that add up to nothing, nothing is decompressed. */
  lemma {:induction false} NoTotals(cfg: Config, fleet: seq<Cpu>, totals: seq<nat>, c: nat, s: Stream)
    requires |fleet| == |totals| == C.MAXCPUS && c <= C.MAXCPUS
    requires forall k :: 0 <= k < C.MAXCPUS ==> totals[k] == 0
    ensures var r := GetFleet(cfg, fleet, totals, c, s);
            r.Good? && r.rest == s && CpusOf(r.val) == fleet[c..]
    decreases C.MAXCPUS - c
  {
    if c < C.MAXCPUS { NoTotals(cfg, fleet, totals, c + 1, s); }
  }

  /** What an empty buffer writes, and closeRstzip at the end of the file. */
  const EMPTY: Block := Block([255, 0], [])

  lemma {:induction false} FilterNothing(x: seq<C.OnCpu<Rec>>, parts: seq<seq<Seg>>, k: nat)
    requires x == [] && k < |parts| && WfSegs(parts[k]) && FlatSegs(parts[k]) == C.Filter(x, k)
    ensures parts[k] == []
  {
    if parts[k] != [] { FlatNonempty(parts[k]); }
  }

  lemma {:induction false} NothingInParts(cfg: Config, tracks: seq<Track>, x: seq<C.OnCpu<Rec>>, parts: seq<seq<Seg>>)
    requires PartsOf(cfg, tracks, x, parts) && x == []
    ensures PutBlock(cfg, tracks, C.Cpus(x), parts) == EMPTY
  {
    forall k | 0 <= k < C.MAXCPUS
      ensures parts[k] == []
    {
      FilterNothing(x, parts, k);
    }
    NoPart(cfg, tracks, parts, 0);
  }

  lemma {:induction false} NoPart(cfg: Config, tracks: seq<Track>, parts: seq<seq<Seg>>, c: nat)
    requires |tracks| == C.MAXCPUS && WfParts(parts) && c <= C.MAXCPUS
    requires forall k :: 0 <= k < C.MAXCPUS ==> parts[k] == []
    ensures PutFleet(cfg, tracks, parts, c, []) == []
    decreases C.MAXCPUS - c
  {
    if c < C.MAXCPUS { NoPart(cfg, tracks, parts, c + 1); }
  }

  /** An empty buffer gives no records, and decompression is done. */
  lemma {:induction false} EmptyBlock(cfg: Config, fleet: seq<Cpu>)
    requires |fleet| == C.MAXCPUS
    ensures GetBlock(cfg, fleet, EMPTY) == Some(Output([], fleet, true))
  {
    var runs := [C.CpuCount(255, 0)];
    C.EmptyBufferCount(cfg.bigEndian);
    OneEmptyRun(runs, runs[0]);
    NothingRead(cfg, fleet, EMPTY, runs);
  }

  lemma OneEmptyRun(runs: seq<C.CpuCount>, run: C.CpuCount)
    requires runs == [run] && run.count == 0
    ensures C.NonNegative(runs) && C.Expand(runs) == []
  {
    assert runs[..0] == [];
  }

  lemma {:induction false} NothingRead(cfg: Config, fleet: seq<Cpu>, b: Block, runs: seq<C.CpuCount>)
    requires |fleet| == C.MAXCPUS && C.GetCounts(b.counts, cfg.bigEndian) == C.Counts(runs)
    requires C.NonNegative(runs) && C.Expand(runs) == [] && forall i :: 0 <= i < |runs| ==> runs[i].count == 0
    ensures GetBlock(cfg, fleet, b) == Some(Output([], fleet, true))
  {
    NoRecords(runs);
    NoTotals(cfg, fleet, Totals(runs), 0, b.recs);
    assert fleet[0..] == fleet;
  }

  lemma NoRecords(runs: seq<C.CpuCount>)
    requires C.NonNegative(runs) && C.Expand(runs) == []
    ensures forall k :: 0 <= k < C.MAXCPUS ==> Totals(runs)[k] == 0
  {
    forall k | 0 <= k < C.MAXCPUS
      ensures Totals(runs)[k] == 0
    {
      C.TotalIsCount(runs, k);
    }
  }

  /** Two CPUs taking turns. */
  function Turns(n: nat): (cpus: seq<int>)
    ensures |cpus| == n && forall i :: 0 <= i < n ==> cpus[i] == i % 2
  {
    if n == 0 then [] else Turns(n - 1) + [(n - 1) % 2]
  }

  lemma {:induction false} TurnsAreRuns(n: nat)
    ensures |C.RunsOf(Turns(n))| == n
  {
    if n > 0 {
      TurnsAreRuns(n - 1);
      assert Turns(n)[..n - 1] == Turns(n - 1);
    }
  }

  /** 65536 records of two CPUs taking turns, or twice as many, and so on: no run is written,
      and decompression takes the buffer for the end of the trace. */
  lemma {:induction false} TurnsAreLost(cfg: Config, fleet: seq<Cpu>, tracks: seq<Track>, x: seq<C.OnCpu<Rec>>,
                                        parts: seq<seq<Seg>>)
    requires |fleet| == |tracks| == C.MAXCPUS && WfParts(parts)
    requires x != [] && |x| % 0x1_0000 == 0 && |x| < 0x8000_0000 && C.Cpus(x) == Turns(|x|)
    ensures CpusFit(C.Cpus(x))
    ensures GetBlock(cfg, fleet, PutBlock(cfg, tracks, C.Cpus(x), parts)) == Some(Output([], fleet, true))
  {
    TurnsAreRuns(|x|);
    assert KeptRuns(C.Cpus(x)) == [];
    NothingRead(cfg, fleet, PutBlock(cfg, tracks, C.Cpus(x), parts), []);
  }

  // ------------------------------------------------------------ many buffers

  /** A buffer of the trace, with its parts. */
  datatype Split = Split(rst: seq<C.OnCpu<Rec>>, parts: seq<seq<Seg>>)

  predicate SplitFits(b: Split) {
    WfParts(b.parts) && CpusFit(C.Cpus(C.Filed(b.rst)))
  }

  predicate AllFit(bufs: seq<Split>) {
    forall i :: 0 <= i < |bufs| ==> SplitFits(bufs[i])
  }

  /** Every buffer is admitted in the state in which it is reached. */
  ghost predicate SplitsOk(cfg: Config, tracks: seq<Track>, bufs: seq<Split>)
    decreases |bufs|
  {
    bufs == [] ||
    (PartsOf(cfg, tracks, C.Filed(bufs[0].rst), bufs[0].parts) &&
      SplitsOk(cfg, AfterTracks(cfg, tracks, bufs[0].parts), bufs[1..]))
  }

  function PutSplit(cfg: Config, tracks: seq<Track>, b: Split): Block
    requires |tracks| == C.MAXCPUS && SplitFits(b)
  {
    PutBlock(cfg, tracks, C.Cpus(C.Filed(b.rst)), b.parts)
  }

  /** The file: the buffers, and the empty one that closing it adds. */
  function PutFile(cfg: Config, tracks: seq<Track>, bufs: seq<Split>): (bs: seq<Block>)
    requires |tracks| == C.MAXCPUS && AllFit(bufs)
    ensures |bs| == |bufs| + 1
    decreases |bufs|
  {
    if bufs == [] then [EMPTY]
    else [PutSplit(cfg, tracks, bufs[0])] + PutFile(cfg, AfterTracks(cfg, tracks, bufs[0].parts), bufs[1..])
  }

  /** decompress: the buffers that decompressX gives until it is done; None for an error exit or when it
      reads past the end of the file. */
  function GetFile(cfg: Config, fleet: seq<Cpu>, bs: seq<Block>): Option<seq<seq<C.OnCpu<Rec>>>>
    requires |fleet| == C.MAXCPUS
    decreases |bs|
  {
    if bs == [] then None
    else
      match GetBlock(cfg, fleet, bs[0])
      case None => None
      case Some(o) => if o.done then Some([]) else Ahead(o.buf, GetFile(cfg, o.fleet, bs[1..]))
  }

  function Ahead<T>(buf: T, r: Option<seq<T>>): Option<seq<T>> {
    match r
    case None => None
    case Some(outs) => Some([buf] + outs)
  }

  predicate AllEmpty(bufs: seq<Split>) {
    forall i :: 0 <= i < |bufs| ==> bufs[i].rst == []
  }

  /** Every buffer has come back, but for empty ones at the end. */
  ghost predicate FileBack(masks: seq<bool>, bufs: seq<Split>, outs: seq<seq<C.OnCpu<Rec>>>)
    requires |masks| == C.MAXCPUS
    decreases |outs|
  {
    if outs == [] then AllEmpty(bufs)
    else
      && bufs != []
      && MergedBack(C.Filed(bufs[0].rst), outs[0], masks)
      && FileBack(MasksAfter(masks, C.Filed(bufs[0].rst)), bufs[1..], outs[1..])
  }

  /** What decides about one buffer. */
  predicate SplitKept(cfg: Config, tracks: seq<Track>, b: Split)
    requires |tracks| == C.MAXCPUS && WfParts(b.parts)
  {
    |C.RunsOf(C.Cpus(C.Filed(b.rst)))| < 0x1_0000 && PartsKept(cfg, tracks, b.parts, 0)
  }

  /** Every buffer is kept, and an empty one is followed only by empty ones. */
  predicate SplitsKept(cfg: Config, tracks: seq<Track>, bufs: seq<Split>)
    requires |tracks| == C.MAXCPUS && AllFit(bufs)
    decreases |bufs|
  {
    if bufs == [] then true
    else if bufs[0].rst == [] then AllEmpty(bufs)
    else SplitKept(cfg, tracks, bufs[0]) && SplitsKept(cfg, AfterTracks(cfg, tracks, bufs[0].parts), bufs[1..])
  }

  lemma {:induction false} SplitsFit(cfg: Config, tracks: seq<Track>, bufs: seq<Split>)
    requires SplitsOk(cfg, tracks, bufs)
    ensures AllFit(bufs)
    decreases |bufs|
  {
    if bufs != [] {
      SplitsFit(cfg, AfterTracks(cfg, tracks, bufs[0].parts), bufs[1..]);
      forall i | 0 <= i < |bufs|
        ensures SplitFits(bufs[i])
      {
        if i > 0 { assert bufs[i] == bufs[1..][i - 1]; }
      }
    }
  }

  /** The first block of a file, and the others. */
  lemma FileCons(cfg: Config, tracks: seq<Track>, bufs: seq<Split>)
    requires |tracks| == C.MAXCPUS && AllFit(bufs) && bufs != []
    ensures var f := PutFile(cfg, tracks, bufs);
            && f != [] && f[0] == PutSplit(cfg, tracks, bufs[0])
            && f[1..] == PutFile(cfg, AfterTracks(cfg, tracks, bufs[0].parts), bufs[1..])
  {
  }

  /** From an empty buffer on, nothing is read. */
  lemma {:induction false} EmptyEnds(cfg: Config, fleet: seq<Cpu>, tracks: seq<Track>, bufs: seq<Split>)
    requires FleetMatches(fleet, tracks) && SplitsOk(cfg, tracks, bufs) && AllFit(bufs)
    requires bufs == [] || bufs[0].rst == []
    ensures GetFile(cfg, fleet, PutFile(cfg, tracks, bufs)) == Some([])
  {
    EmptyBlock(cfg, fleet);
    if bufs != [] {
      NothingInParts(cfg, tracks, C.Filed(bufs[0].rst), bufs[0].parts);
      FileCons(cfg, tracks, bufs);
    }
  }

  /** A buffer after an empty one is lost. */
  lemma {:induction false} EmptyHidesRest(cfg: Config, fleet: seq<Cpu>, tracks: seq<Track>, empty: Split, b: Split)
    requires FleetMatches(fleet, tracks) && SplitsOk(cfg, tracks, [empty, b])
    requires empty.rst == [] && b.rst != []
    ensures AllFit([empty, b])
    ensures GetFile(cfg, fleet, PutFile(cfg, tracks, [empty, b])) == Some([])
    ensures !FileBack(Masks(tracks), [empty, b], [])
  {
    SplitsFit(cfg, tracks, [empty, b]);
    EmptyEnds(cfg, fleet, tracks, [empty, b]);
    assert [empty, b][1].rst != [];
  }

  ghost predicate ReadBack(masks: seq<bool>, bufs: seq<Split>, r: Option<seq<seq<C.OnCpu<Rec>>>>)
    requires |masks| == C.MAXCPUS
  {
    r.Some? && FileBack(masks, bufs, r.value)
  }

  /** One buffer that is not empty, and the rest of the file. */
  lemma {:induction false} FileStep(cfg: Config, fleet: seq<Cpu>, masks: seq<bool>, bufs: seq<Split>, bs: seq<Block>,
                                    rest: Option<seq<seq<C.OnCpu<Rec>>>>)
    requires |fleet| == |masks| == C.MAXCPUS && bufs != [] && bs != [] && bufs[0].rst != []
    requires var o := GetBlock(cfg, fleet, bs[0]);
             o.Some? && !o.value.done ==> rest == GetFile(cfg, o.value.fleet, bs[1..])
    ensures ReadBack(masks, bufs, GetFile(cfg, fleet, bs)) <==>
            && BlockBack(cfg, fleet, masks, C.Filed(bufs[0].rst), bs[0])
            && ReadBack(MasksAfter(masks, C.Filed(bufs[0].rst)), bufs[1..], rest)
  {
    var o := GetBlock(cfg, fleet, bs[0]);
    if o.Some? && !o.value.done && rest.Some? {
      var outs := [o.value.buf] + rest.value;
      assert outs[0] == o.value.buf && outs[1..] == rest.value;
    }
  }

  /** The exact condition for a whole file of several CPUs. */
  lemma {:induction false} MultiTraceExact(cfg: Config, fleet: seq<Cpu>, tracks: seq<Track>, bufs: seq<Split>)
    requires FleetMatches(fleet, tracks) && SplitsOk(cfg, tracks, bufs)
    ensures AllFit(bufs)
    ensures ReadBack(Masks(tracks), bufs, GetFile(cfg, fleet, PutFile(cfg, tracks, bufs))) <==>
            SplitsKept(cfg, tracks, bufs)
    decreases |bufs|
  {
    SplitsFit(cfg, tracks, bufs);
    if bufs == [] || bufs[0].rst == [] {
      EmptyEnds(cfg, fleet, tracks, bufs);
    } else {
      var b, x, tracks1 := bufs[0], C.Filed(bufs[0].rst), AfterTracks(cfg, tracks, bufs[0].parts);
      var bs := PutFile(cfg, tracks, bufs);
      FileCons(cfg, tracks, bufs);
      MultiExact(cfg, fleet, tracks, b.rst, b.parts);
      MasksFollow(cfg, tracks, x, b.parts);
      var o := GetBlock(cfg, fleet, bs[0]);
      var rest := if o.Some? then GetFile(cfg, o.value.fleet, bs[1..]) else None;
      FileStep(cfg, fleet, Masks(tracks), bufs, bs, rest);
      if BlockBack(cfg, fleet, Masks(tracks), x, bs[0]) {
        MultiTraceExact(cfg, o.value.fleet, tracks1, bufs[1..]);
      }
    }
  }
}
