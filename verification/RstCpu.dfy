/** rstzipif.H: a trace of several CPUs is split into one trace per CPU and a list of run
    lengths; the decompressor replays the runs. */
module RstCpu {
  import opened Basics

  const MAXCPUS := 64

  /** A record on a CPU; getRstCpuID gives -1 for kinds of records that name no CPU. */
  datatype OnCpu<T> = OnCpu(cpu: int, rec: T)

  datatype CpuCount = CpuCount(cpu: int, count: int)

  /** Records without a CPU are filed under CPU 0. */
  function Filed<T>(x: seq<OnCpu<T>>): (y: seq<OnCpu<T>>)
    ensures |y| == |x|
  {
    seq(|x|, i requires 0 <= i < |x| => if x[i].cpu == -1 then OnCpu(0, x[i].rec) else x[i])
  }

  /** The records of one CPU, in order. */
  function Filter<T>(x: seq<OnCpu<T>>, c: int): seq<T> {
    if x == [] then []
    else Filter(x[..|x| - 1], c) + (if x[|x| - 1].cpu == c then [x[|x| - 1].rec] else [])
  }

  function Cpus<T>(x: seq<OnCpu<T>>): (s: seq<int>)
    ensures |s| == |x|
  {
    seq(|x|, i requires 0 <= i < |x| => x[i].cpu)
  }

  function CountOf(cpus: seq<int>, c: int): (k: nat)
    ensures k <= |cpus|
  {
    if cpus == [] then 0 else CountOf(cpus[..|cpus| - 1], c) + (if cpus[|cpus| - 1] == c then 1 else 0)
  }

  predicate NonNegative(runs: seq<CpuCount>) {
    forall i :: 0 <= i < |runs| ==> runs[i].count >= 0
  }

  /** The CPU numbers that a list of runs stands for. */
  function Expand(runs: seq<CpuCount>): seq<int>
    requires NonNegative(runs)
  {
    if runs == [] then [] else Expand(runs[..|runs| - 1]) + Repeat(runs[|runs| - 1].cpu, runs[|runs| - 1].count)
  }

  function Repeat(c: int, n: nat): (s: seq<int>)
    ensures |s| == n && forall i :: 0 <= i < n ==> s[i] == c
  {
    if n == 0 then [] else Repeat(c, n - 1) + [c]
  }

  /** Each CPU number takes the next record from that CPU's list. */
  function Replay<T>(cpus: seq<int>, lists: seq<seq<T>>): seq<OnCpu<T>>
  {
    if cpus == [] then []
    else
      var c := cpus[|cpus| - 1];
      var k := CountOf(cpus[..|cpus| - 1], c);
      Replay(cpus[..|cpus| - 1], lists) + (if 0 <= c < |lists| && k < |lists[c]| then [OnCpu(c, lists[c][k])] else [])
  }

  /** There are enough records for the runs. */
  ghost predicate Covers<T>(cpus: seq<int>, lists: seq<seq<T>>) {
    && (forall i :: 0 <= i < |cpus| ==> 0 <= cpus[i] < |lists|)
    && (forall c {:trigger CountOf(cpus, c)} :: 0 <= c < |lists| ==> CountOf(cpus, c) <= |lists[c]|)
  }

  lemma {:induction false} CoversPrefix<T>(cpus: seq<int>, lists: seq<seq<T>>)
    requires Covers(cpus, lists) && cpus != []
    ensures Covers(cpus[..|cpus| - 1], lists)
    ensures CountOf(cpus[..|cpus| - 1], cpus[|cpus| - 1]) < |lists[cpus[|cpus| - 1]]|
  {
    var n := |cpus| - 1;
    assert CountOf(cpus, cpus[n]) <= |lists[cpus[n]]|;
    forall c | 0 <= c < |lists|
      ensures CountOf(cpus[..n], c) <= |lists[c]|
    {
      assert CountOf(cpus, c) >= CountOf(cpus[..n], c);
    }
  }

  // ------------------------------------------------------------ split then merge, merge then split

  lemma {:induction false} FilterCount<T>(x: seq<OnCpu<T>>, c: int)
    ensures |Filter(x, c)| == CountOf(Cpus(x), c)
  {
    if x != [] {
      var n := |x| - 1;
      FilterCount(x[..n], c);
      assert Cpus(x)[..n] == Cpus(x[..n]);
    }
  }

  /** Whole lists can be replaced by longer ones without changing a replay. */
  lemma {:induction false} ReplayExtends<T>(cpus: seq<int>, lists: seq<seq<T>>, longer: seq<seq<T>>)
    requires Covers(cpus, lists) && |longer| == |lists|
    requires forall c :: 0 <= c < |lists| ==> lists[c] <= longer[c]
    ensures Replay(cpus, lists) == Replay(cpus, longer)
    decreases |cpus|
  {
    if cpus != [] {
      CoversPrefix(cpus, lists);
      ReplayExtends(cpus[..|cpus| - 1], lists, longer);
    }
  }

  function Lists<T>(x: seq<OnCpu<T>>): (l: seq<seq<T>>)
    ensures |l| == MAXCPUS
  {
    seq(MAXCPUS, c requires 0 <= c < MAXCPUS => Filter(x, c))
  }

  predicate CpusOk<T>(x: seq<OnCpu<T>>) {
    forall i :: 0 <= i < |x| ==> 0 <= x[i].cpu < MAXCPUS
  }

  lemma {:induction false} ListsCover<T>(x: seq<OnCpu<T>>)
    requires CpusOk(x)
    ensures Covers(Cpus(x), Lists(x))
  {
    forall c | 0 <= c < MAXCPUS
      ensures CountOf(Cpus(x), c) <= |Lists(x)[c]|
    {
      FilterCount(x, c);
    }
  }

  /** Replaying the CPU numbers of a trace over its per-CPU parts gives the trace back. */
  lemma {:induction false} SplitThenMerge<T>(x: seq<OnCpu<T>>)
    requires CpusOk(x)
    ensures Covers(Cpus(x), Lists(x)) && Replay(Cpus(x), Lists(x)) == x
  {
    ListsCover(x);
    if x != [] {
      var n := |x| - 1;
      var x0, last := x[..n], x[n];
      assert x == x0 + [last];
      SplitThenMerge(x0);
      SplitLast(x, x0, last);
    }
  }

  lemma {:induction false} SplitLast<T>(x: seq<OnCpu<T>>, x0: seq<OnCpu<T>>, last: OnCpu<T>)
    requires x == x0 + [last] && 0 <= last.cpu < MAXCPUS
    requires Covers(Cpus(x0), Lists(x0)) && Replay(Cpus(x0), Lists(x0)) == x0
    ensures Replay(Cpus(x), Lists(x)) == x
  {
    FilterCount(x0, last.cpu);
    ListsSnoc(x, x0, last);
    ReplayLast(Cpus(x0), Lists(x0), Lists(x), x0, last);
    CpusSnoc(x0, last);
  }

  lemma CpusSnoc<T>(x: seq<OnCpu<T>>, r: OnCpu<T>)
    ensures Cpus(x + [r]) == Cpus(x) + [r.cpu]
  {
  }

  lemma {:induction false} ListsSnoc<T>(x: seq<OnCpu<T>>, x0: seq<OnCpu<T>>, last: OnCpu<T>)
    requires x == x0 + [last] && 0 <= last.cpu < MAXCPUS
    ensures forall c :: 0 <= c < MAXCPUS ==> Lists(x0)[c] <= Lists(x)[c]
    ensures Lists(x)[last.cpu] == Lists(x0)[last.cpu] + [last.rec]
  {
    assert x[..|x| - 1] == x0;
  }

  lemma {:induction false} ReplayLast<T>(cpus: seq<int>, lists: seq<seq<T>>, longer: seq<seq<T>>, x0: seq<OnCpu<T>>,
                                         last: OnCpu<T>)
    requires 0 <= last.cpu < |lists| == |longer| && Covers(cpus, lists) && Replay(cpus, lists) == x0
    requires forall c :: 0 <= c < |lists| ==> lists[c] <= longer[c]
    requires longer[last.cpu] == lists[last.cpu] + [last.rec] && |lists[last.cpu]| == CountOf(cpus, last.cpu)
    ensures Replay(cpus + [last.cpu], longer) == x0 + [last]
  {
    ReplayExtends(cpus, lists, longer);
    ReplaySnoc(cpus, last.cpu, longer);
  }

  /** And splitting a replay gives back the part of each list that it used. */
  lemma {:induction false} MergeThenSplit<T>(cpus: seq<int>, lists: seq<seq<T>>, c: int)
    requires Covers(cpus, lists) && 0 <= c < |lists|
    ensures Cpus(Replay(cpus, lists)) == cpus
    ensures Filter(Replay(cpus, lists), c) == lists[c][..CountOf(cpus, c)]
    decreases |cpus|
  {
    if cpus != [] {
      var front, last := cpus[..|cpus| - 1], cpus[|cpus| - 1];
      CoversPrefix(cpus, lists);
      MergeThenSplit(front, lists, c);
      assert cpus == front + [last];
      ReplaySnoc(front, last, lists);
      CountSnoc(front, last, c);
      OneMore(Replay(front, lists), OnCpu(last, lists[last][CountOf(front, last)]), c, lists[c], CountOf(front, c));
    }
  }

  lemma OneMore<T>(x: seq<OnCpu<T>>, r: OnCpu<T>, c: int, l: seq<T>, k: nat)
    requires k <= |l| && Filter(x, c) == l[..k] && (r.cpu == c ==> k < |l| && r.rec == l[k])
    ensures Cpus(x + [r]) == Cpus(x) + [r.cpu]
    ensures Filter(x + [r], c) == l[..if r.cpu == c then k + 1 else k]
  {
    assert (x + [r])[..|x|] == x;
  }

  /** A replay gives a record for every CPU number exactly when there are enough of them. */
  lemma {:induction false} ReplayFull<T>(cpus: seq<int>, lists: seq<seq<T>>)
    ensures |Replay(cpus, lists)| <= |cpus|
    ensures |Replay(cpus, lists)| == |cpus| <==> Covers(cpus, lists)
  {
    if cpus != [] {
      var front, last := cpus[..|cpus| - 1], cpus[|cpus| - 1];
      ReplayFull(front, lists);
      assert cpus == front + [last];
      if Covers(cpus, lists) {
        CoversPrefix(cpus, lists);
        CountSnoc(front, last, last);
      }
      if |Replay(cpus, lists)| == |cpus| {
        forall c | 0 <= c < |lists|
          ensures CountOf(cpus, c) <= |lists[c]|
        {
          CountSnoc(front, last, c);
          assert CountOf(front, c) <= |lists[c]|;
        }
      }
    }
  }

  /** Records that name no CPU are sorted under CPU 0, all others under their own. */
  lemma {:induction false} FiledUnderZero<T>(x: seq<OnCpu<T>>, c: nat)
    ensures |Filter(Filed(x), c)| == CountOf(Cpus(x), c) + if c == 0 then CountOf(Cpus(x), -1) else 0
  {
    if x != [] {
      var n := |x| - 1;
      FiledUnderZero(x[..n], c);
      assert Filed(x)[..n] == Filed(x[..n]);
      assert Cpus(x)[..n] == Cpus(x[..n]);
    }
  }

  lemma {:induction false} ExpandSnoc(runs: seq<CpuCount>, c: int, n: nat)
    requires NonNegative(runs)
    ensures NonNegative(runs + [CpuCount(c, n)])
    ensures Expand(runs + [CpuCount(c, n)]) == Expand(runs) + Repeat(c, n)
  {
    assert (runs + [CpuCount(c, n)])[..|runs|] == runs;
  }

  lemma {:induction false} RepeatSnoc(s: seq<int>, c: int, n: nat)
    ensures s + Repeat(c, n + 1) == (s + Repeat(c, n)) + [c]
  {
    assert Repeat(c, n + 1) == Repeat(c, n) + [c];
  }

  // ------------------------------------------------------------ runs

  /** The runs of a list of CPU numbers: lengths of stretches of one CPU. */
  function RunsOf(cpus: seq<int>): (runs: seq<CpuCount>)
    ensures runs == [] <==> cpus == []
    ensures cpus != [] ==> runs[|runs| - 1].cpu == cpus[|cpus| - 1]
  {
    if cpus == [] then []
    else
      var c, runs := cpus[|cpus| - 1], RunsOf(cpus[..|cpus| - 1]);
      if runs != [] && runs[|runs| - 1].cpu == c
      then runs[|runs| - 1 := CpuCount(c, runs[|runs| - 1].count + 1)]
      else runs + [CpuCount(c, 1)]
  }

  /** Runs are nonempty, and of different CPUs side by side. */
  ghost predicate RunsOk(runs: seq<CpuCount>) {
    && (forall i :: 0 <= i < |runs| ==> 0 <= runs[i].cpu < MAXCPUS && runs[i].count >= 1)
    && (forall i, j :: 0 <= i < j < |runs| && j == i + 1 ==> runs[i].cpu != runs[j].cpu)
  }

  lemma {:induction false} RunsOfOk(cpus: seq<int>)
    requires forall i :: 0 <= i < |cpus| ==> 0 <= cpus[i] < MAXCPUS
    ensures RunsOk(RunsOf(cpus))
  {
    if cpus != [] { RunsOfOk(cpus[..|cpus| - 1]); }
  }

  lemma {:induction false} LongerRun(front: seq<CpuCount>, c: int, n: nat)
    requires NonNegative(front)
    ensures NonNegative(front + [CpuCount(c, n)]) && NonNegative(front + [CpuCount(c, n + 1)])
    ensures Expand(front + [CpuCount(c, n + 1)]) == Expand(front + [CpuCount(c, n)]) + [c]
  {
    ExpandSnoc(front, c, n);
    ExpandSnoc(front, c, n + 1);
    RepeatSnoc(Expand(front), c, n);
  }

  lemma NewRun(runs: seq<CpuCount>, c: int)
    requires NonNegative(runs)
    ensures NonNegative(runs + [CpuCount(c, 1)]) && Expand(runs + [CpuCount(c, 1)]) == Expand(runs) + [c]
  {
    ExpandSnoc(runs, c, 1);
    assert Repeat(c, 1) == [c];
  }

  /** The runs stand for exactly the CPU numbers. */
  lemma {:induction false} ExpandRuns(cpus: seq<int>)
    ensures NonNegative(RunsOf(cpus)) && Expand(RunsOf(cpus)) == cpus
  {
    if cpus != [] {
      var n := |cpus| - 1;
      ExpandRuns(cpus[..n]);
      ExpandStep(RunsOf(cpus[..n]), cpus[n], RunsOf(cpus));
      assert cpus == cpus[..n] + [cpus[n]];
    }
  }

  lemma ExpandStep(runs: seq<CpuCount>, c: int, more: seq<CpuCount>)
    requires NonNegative(runs)
    requires var m := |runs| - 1;
             more == if runs != [] && runs[m].cpu == c then runs[m := CpuCount(c, runs[m].count + 1)]
                     else runs + [CpuCount(c, 1)]
    ensures NonNegative(more) && Expand(more) == Expand(runs) + [c]
  {
    var m := |runs| - 1;
    if runs != [] && runs[m].cpu == c {
      LongerRun(runs[..m], c, runs[m].count);
      assert runs == runs[..m] + [CpuCount(c, runs[m].count)];
      assert more == runs[..m] + [CpuCount(c, runs[m].count + 1)];
    } else {
      NewRun(runs, c);
    }
  }

  // ------------------------------------------------------------ the loops

  lemma {:induction false} SnocParts<T>(x: seq<OnCpu<T>>, r: OnCpu<T>)
    ensures Cpus(x + [r]) == Cpus(x) + [r.cpu]
    ensures forall c :: Filter(x + [r], c) == Filter(x, c) + (if r.cpu == c then [r.rec] else [])
  {
    assert (x + [r])[..|x|] == x;
  }

  /** The closed runs and the open one are the runs of `cpus`. */
  ghost predicate RunsFor(runs: seq<CpuCount>, prevcpu: int, count: int, cpus: seq<int>) {
    if cpus == [] then prevcpu == -1 && count == 0 && runs == []
    else prevcpu == cpus[|cpus| - 1] && runs + [CpuCount(prevcpu, count)] == RunsOf(cpus)
  }

  class Splitter<T(==)> {
    const unirst: array<seq<T>>
    var cpucount: seq<CpuCount>

    constructor ()
      ensures unirst.Length == MAXCPUS && fresh(unirst)
    {
      unirst := new seq<T>[MAXCPUS](_ => []);
      cpucount := [];
    }

    method ClearLists()
      requires unirst.Length == MAXCPUS
      modifies unirst
      ensures forall c :: 0 <= c < MAXCPUS ==> unirst[c] == []
    {
      for k := 0 to MAXCPUS
        invariant forall c :: 0 <= c < k ==> unirst[c] == []
      {
        unirst[k] := [];
      }
    }

    method File(r: OnCpu<T>, ghost done: seq<OnCpu<T>>)
      requires unirst.Length == MAXCPUS && 0 <= r.cpu < MAXCPUS
      requires forall c :: 0 <= c < MAXCPUS ==> unirst[c] == Filter(done, c)
      modifies unirst
      ensures forall c :: 0 <= c < MAXCPUS ==> unirst[c] == Filter(done + [r], c)
      ensures Cpus(done + [r]) == Cpus(done) + [r.cpu]
    {
      SnocParts(done, r);
      unirst[r.cpu] := unirst[r.cpu] + [r.rec];
    }

    /** sortRstTrace */
    method SortRstTrace(rst: seq<OnCpu<T>>)
      requires unirst.Length == MAXCPUS
      requires forall i :: 0 <= i < |rst| ==> -1 <= rst[i].cpu < MAXCPUS
      modifies this, unirst
      ensures unirst[..] == Lists(Filed(rst))
      ensures cpucount == if rst == [] then [CpuCount(-1, 0)] else RunsOf(Cpus(Filed(rst)))
    {
      ClearLists();
      var prevcpu, count := Scan(rst);
      assert unirst[..] == Lists(Filed(rst));
      cpucount := cpucount + [CpuCount(prevcpu, count)];
    }

    method Scan(rst: seq<OnCpu<T>>) returns (prevcpu: int, count: int)
      requires unirst.Length == MAXCPUS && forall c :: 0 <= c < MAXCPUS ==> unirst[c] == []
      requires forall i :: 0 <= i < |rst| ==> -1 <= rst[i].cpu < MAXCPUS
      modifies this, unirst
      ensures forall c :: 0 <= c < MAXCPUS ==> unirst[c] == Filter(Filed(rst), c)
      ensures RunsFor(cpucount, prevcpu, count, Cpus(Filed(rst)))
    {
      ghost var done: seq<OnCpu<T>> := [];
      prevcpu, count := -1, 0;
      cpucount := [];
      var i := 0;
      while i < |rst|
        invariant i <= |rst| && done == Filed(rst)[..i]
        invariant forall c :: 0 <= c < MAXCPUS ==> unirst[c] == Filter(done, c)
        invariant RunsFor(cpucount, prevcpu, count, Cpus(done))
      {
        var curcpu := rst[i].cpu;
        if curcpu == -1 {
          curcpu := 0;
        }
        prevcpu, count := CountOne(Cpus(done), prevcpu, count, curcpu);
        File(OnCpu(curcpu, rst[i].rec), done);
        done := done + [OnCpu(curcpu, rst[i].rec)];
        i := i + 1;
      }
      assert done == Filed(rst);
    }

    /** Extend the open run, or close it and open another. */
    method CountOne(ghost cpus: seq<int>, prevcpu: int, count: int, curcpu: int) returns (prevcpu': int, count': int)
      requires RunsFor(cpucount, prevcpu, count, cpus) && 0 <= curcpu < MAXCPUS
      requires forall i :: 0 <= i < |cpus| ==> 0 <= cpus[i]
      modifies this`cpucount
      ensures RunsFor(cpucount, prevcpu', count', cpus + [curcpu])
    {
      RunsNext(cpucount, prevcpu, count, cpus, curcpu);
      prevcpu', count' := curcpu, count + 1;
      if prevcpu != -1 && prevcpu != curcpu {
        cpucount := cpucount + [CpuCount(prevcpu, count)];
        count' := 1;
      }
    }
  }

  lemma {:induction false} RunsNext(runs: seq<CpuCount>, prevcpu: int, count: int, cpus: seq<int>, c: int)
    requires RunsFor(runs, prevcpu, count, cpus)
    ensures RunsOf(cpus + [c]) ==
            if cpus == [] then [CpuCount(c, 1)]
            else if prevcpu == c then runs + [CpuCount(c, count + 1)]
            else runs + [CpuCount(prevcpu, count)] + [CpuCount(c, 1)]
  {
    assert (cpus + [c])[..|cpus|] == cpus;
  }

  /** The number of records is the sum of the run lengths. */
  lemma {:induction false} ExpandLength(runs: seq<CpuCount>)
    requires NonNegative(runs)
    ensures |Expand(runs)| == SumCounts(runs)
  {
    if runs != [] { ExpandLength(runs[..|runs| - 1]); }
  }

  function SumCounts(runs: seq<CpuCount>): int {
    if runs == [] then 0 else SumCounts(runs[..|runs| - 1]) + runs[|runs| - 1].count
  }

  /** The records that a list of runs has for one CPU. */
  function TotalFor(runs: seq<CpuCount>, c: int): int {
    if runs == [] then 0
    else TotalFor(runs[..|runs| - 1], c) + (if runs[|runs| - 1].cpu == c then runs[|runs| - 1].count else 0)
  }

  lemma {:induction false} TotalIsCount(runs: seq<CpuCount>, c: int)
    requires NonNegative(runs)
    ensures TotalFor(runs, c) == CountOf(Expand(runs), c)
  {
    if runs != [] {
      var m := |runs| - 1;
      TotalIsCount(runs[..m], c);
      CountAppend(Expand(runs[..m]), runs[m].cpu, runs[m].count, c);
    }
  }

  /** Leaving out runs loses records. */
  lemma {:induction false} FewerRuns(runs: seq<CpuCount>, m: nat)
    requires RunsOk(runs) && m <= |runs|
    ensures SumCounts(runs[..m]) + |runs| - m <= SumCounts(runs)
    decreases |runs|
  {
    if m < |runs| {
      var front := runs[..|runs| - 1];
      FewerRuns(front, m);
      assert front[..m] == runs[..m];
    } else {
      assert runs[..m] == runs;
    }
  }

  lemma {:induction false} RunBound(cpus: seq<int>)
    ensures forall i :: 0 <= i < |RunsOf(cpus)| ==> RunsOf(cpus)[i].count <= |cpus|
  {
    if cpus != [] { RunBound(cpus[..|cpus| - 1]); }
  }

  // ------------------------------------------------------------ replaying the runs

  /** `y`, then entries `k` to `e` of one CPU's list. */
  function Copied<T>(y: seq<OnCpu<T>>, c: int, l: seq<T>, k: nat, e: nat): seq<OnCpu<T>>
    requires e <= |l|
  {
    if e <= k then y else Copied(y, c, l, k, e - 1) + [OnCpu(c, l[e - 1])]
  }

  lemma {:induction false} CountSnoc(s: seq<int>, c: int, b: int)
    ensures CountOf(s + [c], b) == CountOf(s, b) + (if b == c then 1 else 0)
  {
    assert (s + [c])[..|s|] == s;
  }

  lemma {:induction false} CountAppend(a: seq<int>, c: int, n: nat, b: int)
    ensures CountOf(a + Repeat(c, n), b) == CountOf(a, b) + (if b == c then n else 0)
    decreases n
  {
    if n == 0 {
      assert a + Repeat(c, 0) == a;
    } else {
      RepeatSnoc(a, c, n - 1);
      CountSnoc(a + Repeat(c, n - 1), c, b);
      CountAppend(a, c, n - 1, b);
    }
  }

  lemma {:induction false} CoversAppend<T>(a: seq<int>, c: int, n: nat, lists: seq<seq<T>>)
    requires Covers(a + Repeat(c, n), lists) && 0 <= c < |lists|
    ensures Covers(a, lists) && CountOf(a, c) + n <= |lists[c]|
  {
    var s := a + Repeat(c, n);
    assert forall i :: 0 <= i < |a| ==> a[i] == s[i];
    forall b | 0 <= b < |lists|
      ensures CountOf(a, b) <= |lists[b]|
    {
      CountAppend(a, c, n, b);
    }
    CountAppend(a, c, n, c);
  }

  lemma {:induction false} ReplaySnoc<T>(t: seq<int>, c: int, lists: seq<seq<T>>)
    requires 0 <= c < |lists| && CountOf(t, c) < |lists[c]|
    ensures Replay(t + [c], lists) == Replay(t, lists) + [OnCpu(c, lists[c][CountOf(t, c)])]
  {
    assert (t + [c])[..|t|] == t;
  }

  /** A run takes a stretch of its CPU's list. */
  lemma {:induction false} ReplayRun<T>(a: seq<int>, t: seq<int>, c: int, n: nat, k: nat, lists: seq<seq<T>>)
    requires 0 <= c < |lists| && k == CountOf(a, c) && k + n <= |lists[c]| && t == a + Repeat(c, n)
    ensures Replay(t, lists) == Copied(Replay(a, lists), c, lists[c], k, k + n)
    decreases n
  {
    if n == 0 {
      assert t == a;
    } else {
      var p := a + Repeat(c, n - 1);
      RepeatSnoc(a, c, n - 1);
      assert t == p + [c];
      CountAppend(a, c, n - 1, c);
      ReplayRun(a, p, c, n - 1, k, lists);
      ReplaySnoc(p, c, lists);
    }
  }

  lemma {:induction false} CoversFewer<T>(runs: seq<CpuCount>, k: nat, lists: seq<seq<T>>)
    requires NonNegative(runs) && k <= |runs| && Covers(Expand(runs), lists)
    requires forall i :: 0 <= i < |runs| ==> 0 <= runs[i].cpu < |lists|
    ensures NonNegative(runs[..k]) && Covers(Expand(runs[..k]), lists)
    decreases |runs| - k
  {
    if k < |runs| {
      CoversFewer(runs, k + 1, lists);
      assert runs[..k + 1][..k] == runs[..k];
      CoversAppend(Expand(runs[..k]), runs[k].cpu, runs[k].count, lists);
    } else {
      assert runs[..k] == runs;
    }
  }

  /** How far each CPU's buffer has been copied. */
  ghost predicate Indexed(index: seq<nat>, cpus: seq<int>) {
    |index| == MAXCPUS && forall c :: 0 <= c < MAXCPUS ==> index[c] == CountOf(cpus, c)
  }

  lemma {:induction false} IndexedNext(index: seq<nat>, cpus: seq<int>, c: int, n: nat, more: seq<int>)
    requires Indexed(index, cpus) && 0 <= c < MAXCPUS && more == cpus + Repeat(c, n)
    ensures index[c] == CountOf(cpus, c) && Indexed(index[c := index[c] + n], more)
  {
    forall b | 0 <= b < MAXCPUS
      ensures index[c := index[c] + n][b] == CountOf(more, b)
    {
      CountAppend(cpus, c, n, b);
    }
  }

  lemma {:induction false} MergeStep<T>(runs: seq<CpuCount>, i: nat, lists: seq<seq<T>>)
    requires NonNegative(runs) && i < |runs| && Covers(Expand(runs), lists)
    requires forall i :: 0 <= i < |runs| ==> 0 <= runs[i].cpu < |lists|
    ensures NonNegative(runs[..i]) && NonNegative(runs[..i + 1])
    ensures Expand(runs[..i + 1]) == Expand(runs[..i]) + Repeat(runs[i].cpu, runs[i].count)
    ensures Covers(Expand(runs[..i]), lists) && Covers(Expand(runs[..i + 1]), lists)
    ensures var k := CountOf(Expand(runs[..i]), runs[i].cpu);
            && k + runs[i].count <= |lists[runs[i].cpu]|
            && Replay(Expand(runs[..i + 1]), lists) ==
               Copied(Replay(Expand(runs[..i]), lists), runs[i].cpu, lists[runs[i].cpu], k, k + runs[i].count)
  {
    CoversFewer(runs, i, lists);
    CoversFewer(runs, i + 1, lists);
    assert runs[..i + 1][..i] == runs[..i];
    CoversAppend(Expand(runs[..i]), runs[i].cpu, runs[i].count, lists);
    ReplayRun(Expand(runs[..i]), Expand(runs[..i + 1]), runs[i].cpu, runs[i].count,
      CountOf(Expand(runs[..i]), runs[i].cpu), lists);
  }

  lemma {:induction false} MergeOne<T>(runs: seq<CpuCount>, i: nat, lists: seq<seq<T>>, index: seq<nat>)
    requires NonNegative(runs) && i < |runs| && Covers(Expand(runs), lists) && |lists| == MAXCPUS
    requires forall i :: 0 <= i < |runs| ==> 0 <= runs[i].cpu < MAXCPUS
    requires NonNegative(runs[..i]) && Indexed(index, Expand(runs[..i]))
    ensures NonNegative(runs[..i + 1]) && Covers(Expand(runs[..i]), lists) && Covers(Expand(runs[..i + 1]), lists)
    ensures var c, n := runs[i].cpu, runs[i].count;
      && Indexed(index[c := index[c] + n], Expand(runs[..i + 1])) && index[c] + n <= |lists[c]|
      && Replay(Expand(runs[..i + 1]), lists) ==
         Copied(Replay(Expand(runs[..i]), lists), c, lists[c], index[c], index[c] + n)
  {
    MergeStep(runs, i, lists);
    IndexedNext(index, Expand(runs[..i]), runs[i].cpu, runs[i].count, Expand(runs[..i + 1]));
  }

  /** The loop of decompressX that copies each run from its CPU's buffer. */
  method Merge<T>(runs: seq<CpuCount>, lists: seq<seq<T>>) returns (buf: seq<OnCpu<T>>)
    requires |lists| == MAXCPUS && NonNegative(runs) && Covers(Expand(runs), lists)
    requires forall i :: 0 <= i < |runs| ==> 0 <= runs[i].cpu < MAXCPUS
    ensures buf == Replay(Expand(runs), lists) && |buf| == |Expand(runs)|
  {
    ReplayFull(Expand(runs), lists);
    var index: seq<nat> := seq(MAXCPUS, _ => 0);
    buf := [];
    for i := 0 to |runs|
      invariant NonNegative(runs[..i]) && Covers(Expand(runs[..i]), lists)
      invariant Indexed(index, Expand(runs[..i])) && buf == Replay(Expand(runs[..i]), lists)
    {
      var curcpu, count := runs[i].cpu, runs[i].count;
      MergeOne(runs, i, lists, index);
      var at := index[curcpu];
      buf := Copied(buf, curcpu, lists[curcpu], at, at + count);
      index := index[curcpu := at + count];
    }
    assert runs[..|runs|] == runs;
  }

  // ------------------------------------------------------------ the code for run lengths

  /** memcpy of a 16-bit or 32-bit number. */
  function Bytes16(v: u16, bigEndian: bool): seq<byte> {
    if bigEndian then [v / 0x100, v % 0x100] else [v % 0x100, v / 0x100]
  }

  function Bytes32(v: u32, bigEndian: bool): seq<byte> {
    if bigEndian then Bytes16(v / 0x1_0000, true) + Bytes16(v % 0x1_0000, true)
    else Bytes16(v % 0x1_0000, false) + Bytes16(v / 0x1_0000, false)
  }

  function Value16(a: byte, b: byte, bigEndian: bool): u16 {
    if bigEndian then a * 0x100 + b else b * 0x100 + a
  }

  function Value32(a: byte, b: byte, c: byte, d: byte, bigEndian: bool): u32 {
    var x, y := Value16(a, b, bigEndian), Value16(c, d, bigEndian);
    if bigEndian then x * 0x1_0000 + y else y * 0x1_0000 + x
  }

  predicate Countable(r: CpuCount) {
    0 <= r.cpu < 0x100 && 1 <= r.count < 0x1_0000_0000
  }

  /** compressCpuCount, one run: an 8-bit count, or zeros announcing a wider one. */
  function PutCount(r: CpuCount, bigEndian: bool): seq<byte>
    requires Countable(r)
  {
    if r.count < 0x100 then [r.cpu, r.count]
    else if r.count < 0x1_0000 then [r.cpu, 0] + Bytes16(r.count, bigEndian)
    else [r.cpu, 0, 0, 0] + Bytes32(r.count, bigEndian)
  }

  function PutCounts(runs: seq<CpuCount>, bigEndian: bool): seq<byte>
    requires forall i :: 0 <= i < |runs| ==> Countable(runs[i])
  {
    if runs == [] then [] else PutCount(runs[0], bigEndian) + PutCounts(runs[1..], bigEndian)
  }

  datatype Counts = Truncated | Counts(runs: seq<CpuCount>)

  /** decompressCpuCount; Truncated where the source would read past the buffer. */
  function GetCounts(z: seq<byte>, bigEndian: bool): (r: Counts)
    ensures r.Counts? ==> forall i :: 0 <= i < |r.runs| ==> 0 <= r.runs[i].cpu < 0x100 && r.runs[i].count >= 0
    decreases |z|
  {
    if z == [] then Counts([])
    else if |z| < 2 then Truncated
    else if z[1] != 0 || |z| == 2 then More(CpuCount(z[0], z[1]), GetCounts(z[2..], bigEndian))
    else if |z| < 4 then Truncated
    else
      var n := Value16(z[2], z[3], bigEndian);
      if n != 0 || |z| == 4 then More(CpuCount(z[0], n), GetCounts(z[4..], bigEndian))
      else if |z| < 8 then Truncated
      else More(CpuCount(z[0], Value32(z[4], z[5], z[6], z[7], bigEndian)), GetCounts(z[8..], bigEndian))
  }

  function More(r: CpuCount, rest: Counts): Counts {
    match rest
    case Truncated => Truncated
    case Counts(runs) => Counts([r] + runs)
  }

  lemma OneCount(r: CpuCount, rest: seq<byte>, bigEndian: bool)
    requires Countable(r)
    ensures GetCounts(PutCount(r, bigEndian) + rest, bigEndian) == More(r, GetCounts(rest, bigEndian))
  {
    var z := PutCount(r, bigEndian) + rest;
    if r.count < 0x100 {
      assert z[2..] == rest;
    } else if r.count < 0x1_0000 {
      assert z[2] == Bytes16(r.count, bigEndian)[0] && z[3] == Bytes16(r.count, bigEndian)[1];
      assert z[4..] == rest;
    } else {
      var b := Bytes32(r.count, bigEndian);
      assert z[4] == b[0] && z[5] == b[1] && z[6] == b[2] && z[7] == b[3];
      assert Value32(b[0], b[1], b[2], b[3], bigEndian) == r.count;
      assert z[8..] == rest;
    }
  }

  /** Every list of nonempty runs survives the 8/16/32-bit code. */
  lemma {:induction false} CountsRoundTrip(runs: seq<CpuCount>, bigEndian: bool)
    requires forall i :: 0 <= i < |runs| ==> Countable(runs[i])
    ensures GetCounts(PutCounts(runs, bigEndian), bigEndian) == Counts(runs)
  {
    if runs != [] {
      OneCount(runs[0], PutCounts(runs[1..], bigEndian), bigEndian);
      CountsRoundTrip(runs[1..], bigEndian);
      assert runs == [runs[0]] + runs[1..];
    }
  }

  /** The end of a file, an empty buffer, is one run of length 0 on CPU 255. */
  lemma EmptyBufferCount(bigEndian: bool)
    ensures GetCounts([255, 0], bigEndian) == Counts([CpuCount(255, 0)])
  {
    assert [255, 0][2..] == [];
  }
}
