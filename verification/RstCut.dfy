/** The cut of a buffer is a function of its records: each call of read_chunk covers as many records as it may, so
    that no other list of segments comes of the same buffer. */
module RstCut {
  import opened Basics
  import opened RstTypes
  import opened RstCodec
  import opened RstRoundTrip
  import opened RstExact
  import opened RstChunking

  predicate OthersOnly(items: seq<Item>) {
    AllInstr(items) && forall k, j :: 0 <= k < |items| && 0 <= j < |items[k].after| ==> !items[k].after[j].Instr?
  }

  lemma OthersTail(items: seq<Item>)
    requires OthersOnly(items) && items != []
    ensures OthersOnly(items[1..]) && forall j :: 0 <= j < |items[0].after| ==> !items[0].after[j].Instr?
  {
    assert forall k :: 0 <= k < |items[1..]| ==> items[1..][k] == items[k + 1];
  }

  /** Runs of other records that are followed by an instruction, or by nothing, end at the same place. */
  lemma SameRun(a: seq<Rec>, b: seq<Rec>, t: seq<Rec>, u: seq<Rec>)
    requires a + t <= b + u && t != [] && t[0].Instr?
    requires (forall j :: 0 <= j < |a| ==> !a[j].Instr?) && (forall j :: 0 <= j < |b| ==> !b[j].Instr?)
    requires u != [] ==> u[0].Instr?
    ensures a == b && t <= u
  {
    var s := b + u;
    assert (a + t)[|a|] == t[0] && s[..|a + t|] == a + t;
    assert s[|a|] == t[0];
    assert |b| < |s| ==> s[|b|] == u[0];
    assert forall j :: 0 <= j < |a| ==> s[j] == a[j];
    assert forall j :: 0 <= j < |b| ==> s[j] == b[j];
    assert |a| == |b|;
    assert a == s[..|a|] == b;
    assert t == s[|a|..|a| + |t|] == u[..|t|];
  }

  lemma FlatCons(items: seq<Item>)
    requires items != []
    ensures FlatItems(items) == [items[0].instr] + (items[0].after + FlatItems(items[1..]))
  {
  }

  lemma FlatStarts(items: seq<Item>)
    requires AllInstr(items)
    ensures items == [] <==> FlatItems(items) == []
    ensures items != [] ==> FlatItems(items)[0] == items[0].instr && FlatItems(items)[0].Instr?
  {
  }

  /** A chunk whose records are the first ones of another has the other's items, but for what follows its last
      instruction there. */
  lemma {:induction false} PrefixItems(a: seq<Item>, b: seq<Item>, m: nat)
    requires OthersOnly(a) && OthersOnly(b) && |a| == m + 1 && a[m].after == [] && FlatItems(a) <= FlatItems(b)
    ensures m < |b| && a[..m] == b[..m] && a[m].instr == b[m].instr
    ensures FlatItems(b) == FlatItems(a) + (b[m].after + FlatItems(b[m + 1..]))
    decreases m
  {
    FlatStarts(a);
    FlatStarts(b);
    FlatCons(a);
    FlatCons(b);
    var x, y, t, u := a[0], b[0], a[1..], b[1..];
    assert x.instr == FlatItems(a)[0] == FlatItems(b)[0] == y.instr;
    assert FlatItems(a)[1..] == x.after + FlatItems(t) && FlatItems(b)[1..] == y.after + FlatItems(u);
    assert x.after + FlatItems(t) <= y.after + FlatItems(u);
    if m > 0 {
      OthersTail(a);
      OthersTail(b);
      FlatStarts(t);
      FlatStarts(u);
      SameRun(x.after, y.after, FlatItems(t), FlatItems(u));
      var n: nat := m - 1;
      PrefixItems(t, u, n);
      PrefixCons(a, b, m, n);
    }
  }

  lemma PrefixCons(a: seq<Item>, b: seq<Item>, m: nat, n: nat)
    requires |a| == m + 1 && m == n + 1 && b != [] && a[0] == b[0]
    requires n < |b[1..]| && a[1..][..n] == b[1..][..n] && a[1..][n].instr == b[1..][n].instr
    requires FlatItems(b[1..]) == FlatItems(a[1..]) + (b[1..][n].after + FlatItems(b[1..][n + 1..]))
    ensures m < |b| && a[..m] == b[..m] && a[m].instr == b[m].instr
    ensures FlatItems(b) == FlatItems(a) + (b[m].after + FlatItems(b[m + 1..]))
  {
    var head, more := [a[0].instr] + a[0].after, b[m].after + FlatItems(b[m + 1..]);
    assert a[..m] == [a[0]] + a[1..][..n] && b[..m] == [b[0]] + b[1..][..n];
    assert b[1..][n + 1..] == b[m + 1..];
    AppendAssoc(head, FlatItems(a[1..]), more);
  }

  /** Where one chunk goes on behind another's end, the next record could have joined the other. */
  lemma {:induction false} GoesOn(recs: seq<Rec>, start: nat, end: nat, a: seq<Item>, b: seq<Item>, m: nat)
    requires OthersOnly(a) && GoodChunk(b) && |a| == m + 1 && a[m].after == [] && FlatItems(a) < FlatItems(b)
    requires start <= end <= |recs| && end - start + |FlatItems(b)| - |FlatItems(a)| < MAX_CHUNKSIZE
    requires FlatItems(b)[|FlatItems(a)|..] <= recs[end..]
    ensures !Maximal(recs, start, end, a)
  {
    PrefixItems(a, b, m);
    var run, u := b[m].after, FlatItems(b[m + 1..]);
    assert FlatItems(b)[|FlatItems(a)|..] == run + u;
    FollowedBy(b, m, a[m].instr.pc, run, u);
    NextJoins(recs, start, end, a[m].instr.pc, run, u);
  }

  /** The run after an item of a chunk is short, and an instruction with the next pc follows it. */
  lemma FollowedBy(b: seq<Item>, m: nat, pc: u64, run: seq<Rec>, u: seq<Rec>)
    requires GoodChunk(b) && m < |b| && b[m].instr.pc == pc && run == b[m].after && u == FlatItems(b[m + 1..])
    requires run + u != []
    ensures u != [] && u[0].Instr? && u[0].pc == Wrap64(pc + 4)
    ensures |run| <= UINT8_MAX && forall j :: 0 <= j < |run| ==> !run[j].Instr?
  {
    var n: nat := m + 1;
    FlatStarts(b[n..]);
    assert n < |b|;
    assert b[n..][0] == b[n];
    NextPcIs(b, m, n, pc);
  }

  lemma NextPcIs(b: seq<Item>, m: nat, n: nat, pc: u64)
    requires WfItems(b) && n == m + 1 < |b| && b[m].instr.pc == pc
    ensures b[n].instr.pc == Wrap64(pc + 4)
  {
    var at := b[0].instr.pc + 4 * m;
    assert pc == Wrap64(at);
    assert b[n].instr.pc == Wrap64(at + 4);
    WrapAdd(at, 4);
  }

  lemma NextJoins(recs: seq<Rec>, start: nat, end: nat, pc: u64, run: seq<Rec>, u: seq<Rec>)
    requires start <= end <= |recs| && run + u <= recs[end..] && u != [] && u[0].Instr? && u[0].pc == Wrap64(pc + 4)
    requires |run| <= UINT8_MAX && forall j :: 0 <= j < |run| ==> !run[j].Instr?
    requires end - start + |run| + |u| < MAX_CHUNKSIZE
    ensures end < |recs| && end - start + 1 < MAX_CHUNKSIZE
    ensures if recs[end].Instr? then recs[end].pc == Wrap64(pc + 4) else RunFits(recs, end, end - start + 1, pc, 0)
  {
    assert forall j :: 0 <= j < |run| ==> recs[end..][j] == run[j];
    assert recs[end..][|run|] == u[0];
    var next := end + |run|;
    assert recs[next] == u[0] && forall j :: end <= j < next ==> recs[j] == run[j - end];
    assert NextInstr(recs, end) == next;
  }

  /** The records in front of the chunk are those up to the first instruction. */
  lemma BeforeChunk(recs: seq<Rec>, c: Call)
    requires WfCall(recs, c)
    ensures c.start + |c.before| == NextInstr(recs, c.start) && c.before == recs[c.start..c.start + |c.before|]
  {
    var s, first := recs[c.start..c.end], c.start + |c.before|;
    FlatStarts(c.items);
    assert c.before == s[..|c.before|];
    assert forall k :: c.start <= k < first ==> recs[k] == c.before[k - c.start];
    if c.items != [] { assert recs[first] == s[|c.before|]; }
  }

  lemma Slices(recs: seq<Rec>, start: nat, e: nat, e': nat, before: seq<Rec>, a: seq<Rec>, b: seq<Rec>)
    requires start <= e < e' <= |recs| && recs[start..e] == before + a && recs[start..e'] == before + b
    ensures a < b && b[|a|..] <= recs[e..] && e - start == |before| + |a| && e' - start == |before| + |b|
  {
    var n := start + |before|;
    assert a == recs[start..e][|before|..] == recs[n..e];
    assert b == recs[start..e'][|before|..] == recs[n..e'];
    assert a == b[..|a|] && b[|a|..] == recs[e..e'];
  }

  /** A call from the same place does not go further. */
  lemma {:induction false} NoFurther(recs: seq<Rec>, c: Call, d: Call)
    requires WfCall(recs, c) && WfCall(recs, d) && c.start == d.start
    ensures d.end <= c.end
  {
    if c.end < d.end {
      BeforeChunk(recs, c);
      BeforeChunk(recs, d);
      assert c.before == d.before;
      Slices(recs, c.start, c.end, d.end, c.before, FlatItems(c.items), FlatItems(d.items));
      Further(recs, c.start, c.end, |c.before|, c.items, d.items);
      assert false;
    }
  }

  lemma {:induction false} Further(recs: seq<Rec>, start: nat, end: nat, n: nat, a: seq<Item>, b: seq<Item>)
    requires FlatItems(a) < FlatItems(b) && start <= end <= |recs| && end - start == n + |FlatItems(a)|
    requires FlatItems(b)[|FlatItems(a)|..] <= recs[end..] && AllInstr(a)
    requires (a != [] ==> GoodChunk(a)) && (b != [] ==> GoodChunk(b) && n + |FlatItems(b)| < MAX_CHUNKSIZE)
    ensures !Maximal(recs, start, end, a)
  {
    if a != [] { GoesOn(recs, start, end, a, b, |a| - 1); }
  }

  lemma {:induction false} SameCall(recs: seq<Rec>, c: Call, d: Call)
    requires WfCall(recs, c) && WfCall(recs, d) && c.start == d.start
    ensures c == d
  {
    NoFurther(recs, c, d);
    NoFurther(recs, d, c);
    BeforeChunk(recs, c);
    BeforeChunk(recs, d);
    Parts(recs, c, d);
    SameItems(c.items, d.items);
  }

  lemma Parts(recs: seq<Rec>, c: Call, d: Call)
    requires c.start <= c.end == d.end <= |recs| && c.before == d.before
    requires recs[c.start..c.end] == c.before + FlatItems(c.items) == d.before + FlatItems(d.items)
    ensures FlatItems(c.items) == FlatItems(d.items)
  {
    Rest(c.before, FlatItems(c.items));
    Rest(d.before, FlatItems(d.items));
  }

  lemma Rest(a: seq<Rec>, b: seq<Rec>)
    ensures (a + b)[|a|..] == b
  {
  }

  lemma SameItems(a: seq<Item>, b: seq<Item>)
    requires FlatItems(a) == FlatItems(b) && (a != [] ==> GoodChunk(a)) && (b != [] ==> GoodChunk(b))
    ensures a == b
  {
    if a != [] {
      FlatCons(a);
      SameChunks(a, b, |a| - 1, |b| - 1);
    } else if b != [] {
      FlatCons(b);
      assert false;
    }
  }

  lemma SameChunks(a: seq<Item>, b: seq<Item>, m: nat, n: int)
    requires FlatItems(a) == FlatItems(b) != [] && |a| == m + 1 && |b| == n + 1 && n >= -1
    requires OthersOnly(a) && OthersOnly(b) && a[m].after == [] && (n >= 0 ==> b[n].after == [])
    ensures a == b
  {
    assert n >= 0;
    PrefixItems(a, b, m);
    PrefixItems(b, a, n);
    assert a == a[..m] + [a[m]] && b == b[..n] + [b[n]];
  }

  /** Calls that begin at the same place are the same. */
  ghost predicate Determined(a: seq<Call>, b: seq<Call>) {
    forall i :: 0 <= i < |a| && i < |b| && a[i].start == b[i].start ==> a[i] == b[i]
  }

  lemma AllDetermined(recs: seq<Rec>, a: seq<Call>, b: seq<Call>)
    requires CallsCover(recs, a, |recs|) && CallsCover(recs, b, |recs|)
    ensures Determined(a, b)
  {
    forall i | 0 <= i < |a| && i < |b| && a[i].start == b[i].start ensures a[i] == b[i] {
      SameCall(recs, a[i], b[i]);
    }
  }

  lemma {:induction false} SameCalls(a: seq<Call>, b: seq<Call>, at: nat, i: nat)
    requires Contiguous(a, at) && Contiguous(b, at) && Determined(a, b) && i <= |a| && i <= |b|
    ensures a[..i] == b[..i]
  {
    if i > 0 {
      var j: nat := i - 1;
      SameCalls(a, b, at, j);
      SameEnd(a, b, j);
      assert a[..i] == a[..j] + [a[j]] && b[..i] == b[..j] + [b[j]];
    }
  }

  lemma NoMoreCalls(recs: seq<Rec>, a: seq<Call>, b: seq<Call>)
    requires CallsCover(recs, a, |recs|) && CallsCover(recs, b, |recs|) && Determined(a, b)
    ensures |b| <= |a|
  {
    var n: nat := |a|;
    if n < |b| {
      SameCalls(a, b, |recs|, n);
      SameEnd(a, b, n);
      assert false;
    }
  }

  lemma SameEnd(a: seq<Call>, b: seq<Call>, i: nat)
    requires i <= |a| && i <= |b| && a[..i] == b[..i]
    ensures EndOf(a, i) == EndOf(b, i)
  {
    if i > 0 { assert a[..i][i - 1] == b[..i][i - 1]; }
  }

  /** A buffer has one cut. */
  lemma {:induction false} CutUnique(recs: seq<Rec>, gs: seq<Seg>, hs: seq<Seg>)
    requires IsCut(recs, gs) && IsCut(recs, hs)
    ensures gs == hs
  {
    var a :| CallsCover(recs, a, |recs|) && gs == AllPieces(a);
    var b :| CallsCover(recs, b, |recs|) && hs == AllPieces(b);
    AllDetermined(recs, a, b);
    NoMoreCalls(recs, a, b);
    NoMoreCalls(recs, b, a);
    SameCalls(a, b, |recs|, |a|);
    assert a[..|a|] == a && b[..|b|] == b;
  }
}
