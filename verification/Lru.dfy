/** The rank scheme of RstzipHash and RstzipPavadiffCache: `n` entries carry timestamps; the
    most recent one has n - 1, and unfilled entries have 0. */
module Lru {
  import opened Basics

  type Ranks = seq<nat>

  /** update(index): everything ranked above the entry moves down, the entry goes to the top. */
  function Touch(ts: Ranks, i: nat): (r: Ranks)
    requires i < |ts|
    ensures |r| == |ts|
  {
    seq(|ts|, j requires 0 <= j < |ts| => if j == i then |ts| - 1 else if ts[j] > ts[i] then ts[j] - 1 else ts[j])
  }

  /** replace() followed by update(): the victim gets rank n, then all nonzero ranks drop. */
  function Evict(ts: Ranks, i: nat): (r: Ranks)
    requires i < |ts|
    ensures |r| == |ts|
  {
    seq(|ts|, j requires 0 <= j < |ts| => if j == i then |ts| - 1 else if ts[j] > 0 then ts[j] - 1 else ts[j])
  }

  /** The entry replace() chooses: the first one of rank 0; |ts| stands for the error exit. */
  function Victim(ts: Ranks): (i: nat)
    ensures i <= |ts| && (i < |ts| ==> ts[i] == 0) && forall j :: 0 <= j < i ==> ts[j] != 0
  {
    FirstZero(ts, 0)
  }

  function FirstZero(ts: Ranks, from: nat): (i: nat)
    requires from <= |ts|
    ensures from <= i <= |ts| && (i < |ts| ==> ts[i] == 0) && forall j :: from <= j < i ==> ts[j] != 0
    decreases |ts| - from, ts
  {
    if from == |ts| || ts[from] == 0 then from else FirstZero(ts, from + 1)
  }

  /** How an entry was last used; None when it was never filled. */
  datatype Use = Never | At(time: nat)

  function Filled(use: seq<Use>): (k: nat)
    ensures k <= |use|
  {
    if use == [] then 0 else Filled(use[..|use| - 1]) + (if use[|use| - 1].At? then 1 else 0)
  }

  /** The k filled entries have ranks from n - k to n - 1, unfilled ones have rank 0. */
  ghost predicate Bounded(ts: Ranks, use: seq<Use>) {
    && |use| == |ts|
    && forall i :: 0 <= i < |ts| ==>
         ts[i] < |ts| && (if use[i].Never? then ts[i] == 0 else ts[i] >= |ts| - Filled(use))
  }

  ghost predicate Distinct(ts: Ranks, use: seq<Use>)
    requires |use| == |ts|
  {
    forall i, j :: 0 <= i < j < |ts| && use[i].At? && use[j].At? ==> ts[i] != ts[j]
  }

  /** Ranks order the filled entries by their last use. */
  ghost predicate Ordered(ts: Ranks, use: seq<Use>)
    requires |use| == |ts|
  {
    forall i, j :: 0 <= i < |ts| && 0 <= j < |ts| && use[i].At? && use[j].At? ==>
      (use[i].time < use[j].time <==> ts[i] < ts[j])
  }

  /** The k filled entries carry exactly the top k ranks, in the order of their last use. */
  ghost predicate RanksOk(ts: Ranks, use: seq<Use>) {
    |ts| > 0 && Bounded(ts, use) && Distinct(ts, use) && Ordered(ts, use)
  }

  ghost predicate Later(use: seq<Use>, now: nat) {
    forall i :: 0 <= i < |use| && use[i].At? ==> use[i].time < now
  }

  // ------------------------------------------------------------ counting

  lemma {:induction false} FilledAll(use: seq<Use>)
    ensures Filled(use) == |use| <==> forall i :: 0 <= i < |use| ==> use[i].At?
  {
    if use != [] {
      var n := |use| - 1;
      FilledAll(use[..n]);
      assert forall i :: 0 <= i < n ==> use[..n][i] == use[i];
    }
  }

  lemma {:induction false} FilledUpdate(use: seq<Use>, i: nat, now: nat)
    requires i < |use|
    ensures Filled(use[i := At(now)]) == Filled(use) + (if use[i].Never? then 1 else 0)
  {
    var n, use' := |use| - 1, use[i := At(now)];
    if i < n {
      FilledUpdate(use[..n], i, now);
      assert use'[..n] == use[..n][i := At(now)];
    } else {
      assert use'[..n] == use[..n];
    }
  }

  lemma {:induction false} FilledNone(use: seq<Use>)
    requires forall i :: 0 <= i < |use| ==> use[i].Never?
    ensures Filled(use) == 0
  {
    if use != [] { FilledNone(use[..|use| - 1]); }
  }

  // ------------------------------------------------------------ a victim exists

  ghost function Image(ts: Ranks, n: nat): set<int>
    requires n <= |ts|
  {
    if n == 0 then {} else Image(ts, n - 1) + {ts[n - 1]}
  }

  lemma {:induction false} ImageSize(ts: Ranks, n: nat)
    requires n <= |ts| && forall i, j :: 0 <= i < j < |ts| ==> ts[i] != ts[j]
    ensures |Image(ts, n)| == n
    ensures forall v :: v in Image(ts, n) ==> exists i :: 0 <= i < n && v == ts[i]
  {
    if n > 0 { ImageSize(ts, n - 1); }
  }

  ghost function UpTo(n: nat): set<int> {
    if n == 0 then {} else UpTo(n - 1) + {n}
  }

  lemma {:induction false} UpToSize(n: nat)
    ensures |UpTo(n)| == n && forall x :: x in UpTo(n) <==> 1 <= x <= n
  {
    if n > 0 { UpToSize(n - 1); }
  }

  /** Pigeonhole: n different numbers below n include 0. */
  lemma {:induction false} SomeZero(ts: Ranks)
    requires |ts| > 0 && forall i, j :: 0 <= i < j < |ts| ==> ts[i] != ts[j]
    requires forall i :: 0 <= i < |ts| ==> ts[i] < |ts|
    ensures exists i :: 0 <= i < |ts| && ts[i] == 0
  {
    if forall i :: 0 <= i < |ts| ==> ts[i] != 0 {
      ImageSize(ts, |ts|);
      UpToSize(|ts| - 1);
      forall v | v in Image(ts, |ts|)
        ensures v in UpTo(|ts| - 1)
      {
        var i :| 0 <= i < |ts| && v == ts[i];
      }
      SubsetSize(Image(ts, |ts|), UpTo(|ts| - 1));
    }
  }

  /** replace() always finds a victim: an unfilled entry, or the least recently used one when
      all are filled. Its error exit is never taken. */
  lemma {:induction false} VictimIsLru(ts: Ranks, use: seq<Use>)
    requires RanksOk(ts, use)
    ensures var v := Victim(ts);
            v < |ts| && (use[v].Never? || forall j :: 0 <= j < |ts| ==> use[j].At? && use[v].time <= use[j].time)
  {
    FilledAll(use);
    if forall i :: 0 <= i < |ts| ==> use[i].At? {
      SomeZero(ts);
    }
  }

  // ------------------------------------------------------------ both operations keep the order

  lemma {:induction false} TouchKeeps(ts: Ranks, use: seq<Use>, i: nat, now: nat)
    requires RanksOk(ts, use) && i < |ts| && use[i].At? && Later(use, now)
    ensures RanksOk(Touch(ts, i), use[i := At(now)])
  {
    TouchBounded(ts, use, i, now);
    TouchDistinct(ts, use, i, now);
    TouchOrdered(ts, use, i, now);
  }

  lemma TouchBounded(ts: Ranks, use: seq<Use>, i: nat, now: nat)
    requires RanksOk(ts, use) && i < |ts| && use[i].At?
    ensures Bounded(Touch(ts, i), use[i := At(now)])
  {
    FilledUpdate(use, i, now);
  }

  lemma TouchDistinct(ts: Ranks, use: seq<Use>, i: nat, now: nat)
    requires Bounded(ts, use) && Distinct(ts, use) && i < |ts| && use[i].At?
    ensures Distinct(Touch(ts, i), use[i := At(now)])
  {
  }

  lemma TouchOrdered(ts: Ranks, use: seq<Use>, i: nat, now: nat)
    requires Bounded(ts, use) && Distinct(ts, use) && Ordered(ts, use) && i < |ts| && use[i].At? && Later(use, now)
    ensures Ordered(Touch(ts, i), use[i := At(now)])
  {
  }

  lemma {:induction false} EvictKeeps(ts: Ranks, use: seq<Use>, now: nat)
    requires RanksOk(ts, use) && Later(use, now) && Victim(ts) < |ts|
    ensures RanksOk(Evict(ts, Victim(ts)), use[Victim(ts) := At(now)])
  {
    var v := Victim(ts);
    OthersPositive(ts, use, v);
    EvictBounded(ts, use, v, now);
    EvictDistinct(ts, use, v, now);
    EvictOrdered(ts, use, v, now);
  }

  lemma EvictBounded(ts: Ranks, use: seq<Use>, v: nat, now: nat)
    requires RanksOk(ts, use) && v < |ts| && ts[v] == 0
    ensures Bounded(Evict(ts, v), use[v := At(now)])
  {
    FilledUpdate(use, v, now);
    OthersPositive(ts, use, v);
  }

  lemma EvictDistinct(ts: Ranks, use: seq<Use>, v: nat, now: nat)
    requires Bounded(ts, use) && Distinct(ts, use) && v < |ts|
    requires forall j :: 0 <= j < |ts| && j != v && use[j].At? ==> ts[j] > 0
    ensures Distinct(Evict(ts, v), use[v := At(now)])
  {
  }

  lemma EvictOrdered(ts: Ranks, use: seq<Use>, v: nat, now: nat)
    requires Bounded(ts, use) && Ordered(ts, use) && v < |ts| && Later(use, now)
    requires forall j :: 0 <= j < |ts| && j != v && use[j].At? ==> ts[j] > 0
    ensures Ordered(Evict(ts, v), use[v := At(now)])
  {
  }

  lemma {:induction false} OthersPositive(ts: Ranks, use: seq<Use>, v: nat)
    requires RanksOk(ts, use) && v < |ts| && ts[v] == 0
    ensures forall j :: 0 <= j < |ts| && j != v && use[j].At? ==> ts[j] > 0
  {
    FilledAll(use);
  }

  /** A new cache: nothing filled, all ranks 0. */
  lemma {:induction false} EmptyRanks(ts: Ranks, use: seq<Use>)
    requires |ts| == |use| > 0
    requires forall i :: 0 <= i < |ts| ==> ts[i] == 0 && use[i].Never?
    ensures RanksOk(ts, use)
  {
  }

  // ------------------------------------------------------------ whole runs

  /** One operation on a set: write() over the victim, or update() of an entry that was hit. */
  datatype Event = Written | Touched(i: nat)

  /** The ranks after a run of operations on a new cache of `n` entries. */
  function RanksAfter(n: nat, run: seq<Event>): (ts: Ranks)
    ensures |ts| == n
    decreases |run|, 0
  {
    if run == [] then seq(n, _ => 0)
    else
      var k := |run| - 1;
      var ts, i := RanksAfter(n, run[..k]), EntryUsed(n, run, k);
      if i >= n then ts else if run[k].Written? then Evict(ts, i) else Touch(ts, i)
  }

  /** The entry that operation `k` of a run uses; `n` when it finds none. */
  function EntryUsed(n: nat, run: seq<Event>, k: nat): nat
    requires k < |run|
    decreases k, 1
  {
    match run[k]
    case Written => Victim(RanksAfter(n, run[..k]))
    case Touched(i) => i
  }

  /** When each entry was last used, operation `k` taking place at time `k`. */
  function UsesAfter(n: nat, run: seq<Event>): (use: seq<Use>)
    ensures |use| == n
  {
    if run == [] then seq(n, _ => Never)
    else
      var k := |run| - 1;
      var use, i := UsesAfter(n, run[..k]), EntryUsed(n, run, k);
      if i < n then use[i := At(k)] else use
  }

  /** Only entries that hold something can be hit. */
  predicate ValidRun(n: nat, run: seq<Event>) {
    run == [] ||
    var k := |run| - 1;
    ValidRun(n, run[..k]) && (run[k].Touched? ==> run[k].i < n && UsesAfter(n, run[..k])[run[k].i].At?)
  }

  /** Uses are recorded before the time of the next operation. */
  lemma {:induction false} UsesBefore(n: nat, run: seq<Event>)
    ensures Later(UsesAfter(n, run), |run|)
  {
    if run != [] { UsesBefore(n, run[..|run| - 1]); }
  }

  lemma {:induction false} NextWritten(n: nat, run: seq<Event>, ts: Ranks, use: seq<Use>)
    requires run != [] && run[|run| - 1].Written? && RanksOk(ts, use)
    requires ts == RanksAfter(n, run[..|run| - 1]) && use == UsesAfter(n, run[..|run| - 1]) && Later(use, |run| - 1)
    ensures RanksOk(RanksAfter(n, run), UsesAfter(n, run))
  {
    VictimIsLru(ts, use);
    EvictKeeps(ts, use, |run| - 1);
    assert EntryUsed(n, run, |run| - 1) == Victim(ts);
  }

  lemma {:induction false} NextTouched(n: nat, run: seq<Event>, ts: Ranks, use: seq<Use>)
    requires run != [] && run[|run| - 1].Touched? && ValidRun(n, run) && RanksOk(ts, use)
    requires ts == RanksAfter(n, run[..|run| - 1]) && use == UsesAfter(n, run[..|run| - 1]) && Later(use, |run| - 1)
    ensures RanksOk(RanksAfter(n, run), UsesAfter(n, run))
  {
    TouchKeeps(ts, use, run[|run| - 1].i, |run| - 1);
  }

  /** After every run the ranks are the order of the last uses. */
  lemma {:induction false} RunRanks(n: nat, run: seq<Event>)
    requires n > 0 && ValidRun(n, run)
    ensures RanksOk(RanksAfter(n, run), UsesAfter(n, run))
  {
    if run == [] {
      EmptyRanks(RanksAfter(n, run), UsesAfter(n, run));
    } else {
      var front := run[..|run| - 1];
      RunRanks(n, front);
      UsesBefore(n, front);
      if run[|run| - 1].Written? {
        NextWritten(n, run, RanksAfter(n, front), UsesAfter(n, front));
      } else {
        NextTouched(n, run, RanksAfter(n, front), UsesAfter(n, front));
      }
    }
  }

  /** The recorded time of an entry is that of the last operation that used it. */
  lemma {:induction false} LastUse(n: nat, run: seq<Event>, i: nat)
    requires i < n
    ensures var u := UsesAfter(n, run)[i];
            if u.Never? then forall k :: 0 <= k < |run| ==> EntryUsed(n, run, k) != i
            else u.time < |run| && EntryUsed(n, run, u.time) == i
                 && forall k :: u.time < k < |run| ==> EntryUsed(n, run, k) != i
  {
    if run != [] {
      var m := |run| - 1;
      LastUse(n, run[..m], i);
      forall k | 0 <= k < m
        ensures EntryUsed(n, run[..m], k) == EntryUsed(n, run, k)
      {
        assert run[..m][..k] == run[..k];
      }
    }
  }

  /** `j` has been used since `v` was. */
  ghost predicate UsedSince(n: nat, run: seq<Event>, v: nat, j: nat) {
    exists k :: 0 <= k < |run| && EntryUsed(n, run, k) == j && forall m :: k <= m < |run| ==> EntryUsed(n, run, m) != v
  }

  /** Over every run of writes and hits, replace() finds a victim: an entry that no operation
      has used, or, once all are in use, the one that every other has been used since. */
  lemma {:induction false} VictimIsLeastRecent(n: nat, run: seq<Event>)
    requires n > 0 && ValidRun(n, run)
    ensures var v := Victim(RanksAfter(n, run));
            && v < n
            && ((forall k :: 0 <= k < |run| ==> EntryUsed(n, run, k) != v)
                || (forall j :: 0 <= j < n && j != v ==> UsedSince(n, run, v, j)))
  {
    RunRanks(n, run);
    var ts, use := RanksAfter(n, run), UsesAfter(n, run);
    VictimIsLru(ts, use);
    var v := Victim(ts);
    LastUse(n, run, v);
    if use[v].At? {
      forall j | 0 <= j < n && j != v
        ensures UsedSince(n, run, v, j)
      {
        LastUse(n, run, j);
        assert use[v].time != use[j].time by {
          assert EntryUsed(n, run, use[v].time) == v && EntryUsed(n, run, use[j].time) == j;
        }
      }
    }
  }
}
