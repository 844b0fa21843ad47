/** How a buffer is cut into chunks: read_chunk and in_same_chunk of the compressor. */
module RstChunking {
  import opened Basics
  import opened RstTypes
  import opened RstCodec
  import opened RstRoundTrip
  import opened RstExact

  const UINT8_MAX := 255

  /** The first instruction at or after `i`, or the end of the buffer. */
  function NextInstr(recs: seq<Rec>, i: nat): (j: nat)
    requires i <= |recs|
    ensures i <= j <= |recs|
    ensures forall k :: i <= k < j ==> !recs[k].Instr?
    ensures j < |recs| ==> recs[j].Instr?
    decreases |recs| - i
  {
    if i == |recs| || recs[i].Instr? then i else NextInstr(recs, i + 1)
  }

  /** The run of other records at `pos` stays in the chunk: an instruction with the next pc
      ends it, soon enough for the run counter and the chunk size. */
  predicate RunFits(recs: seq<Rec>, pos: nat, chunkRecs: nat, prevPc: u64, seen: nat)
    requires pos <= |recs|
  {
    var j := NextInstr(recs, pos);
    && j < |recs| && seen + (j - pos) <= UINT8_MAX && chunkRecs + (j - pos) < MAX_CHUNKSIZE
    && recs[j].pc == Wrap64(prevPc + 4)
  }

  /** The records of the chunk and of what has been put before it. */
  predicate EndsWithInstr(items: seq<Item>) {
    items != [] && items[|items| - 1].after == []
  }

  lemma {:induction false} FlatItemsSnoc(items: seq<Item>, x: Item)
    ensures FlatItems(items + [x]) == FlatItems(items) + [x.instr] + x.after
  {
    if items == [] {
      assert items + [x] == [x];
      assert FlatItems([x][1..]) == [];
    } else {
      TailSnoc(items, x);
      FlatItemsSnoc(items[1..], x);
      var head, tail := [items[0].instr] + items[0].after, FlatItems(items[1..]);
      AppendAssoc(head, tail + [x.instr], x.after);
      AppendAssoc(head, tail, [x.instr]);
    }
  }

  lemma {:induction false} FlatItemsGrow(items: seq<Item>, r: Rec)
    requires items != []
    ensures var n := |items| - 1;
            FlatItems(WithOther(items, r)) == FlatItems(items) + [r]
  {
    var n := |items| - 1;
    var x := items[n];
    var x' := x.(after := x.after + [r]);
    FlatItemsSnoc(items[..n], x);
    FlatItemsSnoc(items[..n], x');
    assert items == items[..n] + [x];
    assert items[n := x'] == items[..n] + [x'];
  }

  lemma {:induction false} FlatSegsSnoc(gs: seq<Seg>, g: Seg)
    ensures FlatSegs(gs + [g]) == FlatSegs(gs) + FlatSeg(g)
  {
    if gs == [] {
      assert gs + [g] == [g];
      assert FlatSegs([g][1..]) == [];
    } else {
      TailSnoc(gs, g);
      FlatSegsSnoc(gs[1..], g);
      AppendAssoc(FlatSeg(gs[0]), FlatSegs(gs[1..]), FlatSeg(g));
    }
  }

  /** Sequential, started, and every instruction's run short: what a growing chunk satisfies. */
  ghost predicate Growing(items: seq<Item>, prevPc: u64) {
    && AllInstr(items)
    && (forall k :: 0 <= k < |items| ==> |items[k].after| < 256)
    && (forall k :: 0 <= k < |items| ==> items[k].instr.pc == Wrap64(items[0].instr.pc + 4 * k))
    && (items != [] ==> prevPc == items[|items| - 1].instr.pc)
    && (forall k, j :: 0 <= k < |items| && 0 <= j < |items[k].after| ==> !items[k].after[j].Instr?)
  }

  lemma GrowInstr(items: seq<Item>, prevPc: u64, r: Rec)
    requires Growing(items, prevPc) && r.Instr? && (items != [] ==> r.pc == Wrap64(prevPc + 4))
    ensures Growing(items + [Item(r, [])], r.pc)
  {
    if items != [] { NextPc(items, prevPc, r.pc, |items|); }
  }

  lemma NextPc(items: seq<Item>, prevPc: u64, pc: u64, n: nat)
    requires Growing(items, prevPc) && n == |items| > 0 && pc == Wrap64(prevPc + 4)
    ensures pc == Wrap64(items[0].instr.pc + 4 * n)
  {
    var at := items[0].instr.pc + 4 * (n - 1);
    assert items[n - 1].instr.pc == Wrap64(at);
    WrapAdd(at, 4);
  }

  function WithOther(items: seq<Item>, r: Rec): seq<Item>
    requires items != []
  {
    var n := |items| - 1;
    items[n := items[n].(after := items[n].after + [r])]
  }

  lemma GrowOther(items: seq<Item>, prevPc: u64, r: Rec)
    requires Growing(items, prevPc) && items != [] && !r.Instr? && |items[|items| - 1].after| < UINT8_MAX
    ensures Growing(WithOther(items, r), prevPc)
  {
    var n, items' := |items| - 1, WithOther(items, r);
    forall k | 0 <= k < |items'|
      ensures items'[k].instr == items[k].instr && |items'[k].after| < 256
    {}
    forall k, j | 0 <= k < |items'| && 0 <= j < |items'[k].after|
      ensures !items'[k].after[j].Instr?
    {
      if k == n && j == |items[n].after| {
        assert items'[k].after[j] == r;
      } else {
        assert items'[k].after[j] == items[k].after[j];
      }
    }
  }

  lemma RunFitsNext(recs: seq<Rec>, pos: nat, chunkRecs: nat, prevPc: u64, seen: nat)
    requires pos < |recs| && !recs[pos].Instr? && RunFits(recs, pos, chunkRecs, prevPc, seen)
    ensures seen < UINT8_MAX && chunkRecs + 1 < MAX_CHUNKSIZE
    ensures RunFits(recs, pos + 1, chunkRecs + 1, prevPc, seen + 1)
  {
    assert NextInstr(recs, pos) == NextInstr(recs, pos + 1);
  }

  /** While a run of other records is open, the instruction that closes it is in sight. */
  ghost predicate PendingFits(recs: seq<Rec>, start: nat, items: seq<Item>, pos: nat, prevPc: u64)
    requires start <= pos <= |recs|
  {
    items != [] && items[|items| - 1].after != [] ==>
      RunFits(recs, pos, pos - start + 1, prevPc, |items[|items| - 1].after|)
  }

  /** The chunk `items` has been read from `first` up to `pos`. */
  ghost predicate ChunkUpTo(recs: seq<Rec>, start: nat, first: nat, items: seq<Item>, pos: nat, prevPc: u64) {
    && start <= first <= pos <= |recs|
    && (first < |recs| ==> recs[first].Instr?)
    && (if items == [] then pos == first else pos > first && pos - start < MAX_CHUNKSIZE)
    && recs[first..pos] == FlatItems(items)
    && Growing(items, prevPc)
    && PendingFits(recs, start, items, pos, prevPc)
  }

  lemma InstrJoins(recs: seq<Rec>, start: nat, first: nat, items: seq<Item>, pos: nat, prevPc: u64)
    requires ChunkUpTo(recs, start, first, items, pos, prevPc) && pos < |recs| && recs[pos].Instr?
    requires pos - start + 1 < MAX_CHUNKSIZE && (items != [] ==> recs[pos].pc == Wrap64(prevPc + 4))
    ensures ChunkUpTo(recs, start, first, items + [Item(recs[pos], [])], pos + 1, recs[pos].pc)
  {
    GrowInstr(items, prevPc, recs[pos]);
    FlatItemsSnoc(items, Item(recs[pos], []));
    assert recs[first..pos + 1] == recs[first..pos] + [recs[pos]];
    assert FlatItems(items + [Item(recs[pos], [])]) == FlatItems(items) + [recs[pos]];
  }

  lemma OtherJoins(recs: seq<Rec>, start: nat, first: nat, items: seq<Item>, pos: nat, prevPc: u64)
    requires ChunkUpTo(recs, start, first, items, pos, prevPc) && pos < |recs| && !recs[pos].Instr?
    requires RunFits(recs, pos, pos - start + 1, prevPc, 0)
    ensures items != [] && ChunkUpTo(recs, start, first, WithOther(items, recs[pos]), pos + 1, prevPc)
  {
    OtherFits(recs, start, first, items, pos, prevPc);
    GrowOther(items, prevPc, recs[pos]);
    FlatItemsGrow(items, recs[pos]);
    assert recs[first..pos + 1] == recs[first..pos] + [recs[pos]];
  }

  lemma OtherFits(recs: seq<Rec>, start: nat, first: nat, items: seq<Item>, pos: nat, prevPc: u64)
    requires ChunkUpTo(recs, start, first, items, pos, prevPc) && pos < |recs| && !recs[pos].Instr?
    requires RunFits(recs, pos, pos - start + 1, prevPc, 0)
    ensures items != [] && |items[|items| - 1].after| < UINT8_MAX && pos + 1 - start < MAX_CHUNKSIZE
    ensures PendingFits(recs, start, WithOther(items, recs[pos]), pos + 1, prevPc)
  {
    RunFitsNext(recs, pos, pos - start + 1, prevPc, |items[|items| - 1].after|);
  }

  /** The next record in the chunk: an instruction of its own, or one more after the last. */
  function WithRecord(items: seq<Item>, r: Rec): seq<Item>
    requires r.Instr? || items != []
  {
    if r.Instr? then items + [Item(r, [])] else WithOther(items, r)
  }

  lemma Joins(recs: seq<Rec>, start: nat, first: nat, items: seq<Item>, pos: nat, prevPc: u64)
    requires ChunkUpTo(recs, start, first, items, pos, prevPc) && pos < |recs|
    requires recs[pos].Instr? ==>
      pos - start + 1 < MAX_CHUNKSIZE && (items != [] ==> recs[pos].pc == Wrap64(prevPc + 4))
    requires !recs[pos].Instr? ==> RunFits(recs, pos, pos - start + 1, prevPc, 0)
    ensures recs[pos].Instr? || items != []
    ensures ChunkUpTo(recs, start, first, WithRecord(items, recs[pos]), pos + 1,
                      if recs[pos].Instr? then recs[pos].pc else prevPc)
  {
    if recs[pos].Instr? {
      InstrJoins(recs, start, first, items, pos, prevPc);
    } else {
      OtherJoins(recs, start, first, items, pos, prevPc);
    }
  }

  /** A record that does not join leaves no run of other records open. */
  lemma ChunkEnds(recs: seq<Rec>, start: nat, first: nat, items: seq<Item>, pos: nat, prevPc: u64)
    requires ChunkUpTo(recs, start, first, items, pos, prevPc) && pos < |recs|
    requires recs[pos].Instr? ==>
      pos - start + 1 >= MAX_CHUNKSIZE || (items != [] && recs[pos].pc != Wrap64(prevPc + 4))
    requires !recs[pos].Instr? ==> !RunFits(recs, pos, pos - start + 1, prevPc, 0)
    ensures if items == [] then pos - start + 1 >= MAX_CHUNKSIZE else items[|items| - 1].after == []
  {
  }

  /** Why a chunk ends where it does: the record at `end` cannot join the chunk of the call that began at `start`. An
      instruction has another pc than the next one, or is one record too many; before the first instruction of a call
      only the number of records counts; another record begins a run that is too long or leads nowhere. */
  ghost predicate Maximal(recs: seq<Rec>, start: nat, end: nat, items: seq<Item>)
    requires start <= end && AllInstr(items)
  {
    end < |recs| ==>
      if items == [] then recs[end].Instr? && end - start + 1 >= MAX_CHUNKSIZE
      else
        var pc := items[|items| - 1].instr.pc;
        if recs[end].Instr? then end - start + 1 >= MAX_CHUNKSIZE || recs[end].pc != Wrap64(pc + 4)
        else !RunFits(recs, end, end - start + 1, pc, 0)
  }

  /** The reader's state that outlives one chunk. */
  class ChunkReader {
    var pos: nat
    var prevPc: u64

    constructor ()
      ensures pos == 0
    {
      pos, prevPc := 0, 0;
    }

    /** in_same_chunk at the current record; `count` instructions are in the chunk so far and
        `chunkRecs` counts this record too. */
    method InSameChunk(recs: seq<Rec>, count: nat, chunkRecs: nat) returns (same: bool)
      requires pos < |recs|
      modifies this`prevPc
      ensures recs[pos].Instr? ==>
        && (same <==> chunkRecs < MAX_CHUNKSIZE && (count > 0 ==> recs[pos].pc == Wrap64(old(prevPc) + 4)))
        && prevPc == (if same then recs[pos].pc else old(prevPc))
      ensures !recs[pos].Instr? ==>
        && (same <==> RunFits(recs, pos, chunkRecs, prevPc, 0))
        && prevPc == old(prevPc)
    {
      if chunkRecs >= MAX_CHUNKSIZE {
        return false;
      }
      if recs[pos].Instr? {
        if count > 0 && recs[pos].pc != Wrap64(prevPc + 4) {
          return false;
        }
        prevPc := recs[pos].pc;
        return true;
      }
      var i, ni, cr := pos, 0, chunkRecs;
      while i < |recs| && ni < UINT8_MAX && cr < MAX_CHUNKSIZE && !recs[i].Instr?
        invariant pos <= i <= |recs| && ni == i - pos <= UINT8_MAX && cr == chunkRecs + ni <= MAX_CHUNKSIZE
        invariant NextInstr(recs, pos) == NextInstr(recs, i)
      {
        i, ni, cr := i + 1, ni + 1, cr + 1;
      }
      if i < |recs| && cr < MAX_CHUNKSIZE {
        same := recs[i].Instr? && recs[i].pc == Wrap64(prevPc + 4);
      } else {
        same := false;
      }
    }

    /** The chunk `items` has been read from `first` up to the current record. */
    ghost predicate InChunk(recs: seq<Rec>, start: nat, first: nat, items: seq<Item>)
      reads this
    {
      ChunkUpTo(recs, start, first, items, pos, prevPc)
    }

    /** One turn of read_chunk's second loop. The source's error exit for a run counter at its
        limit is never reached. */
    method Accept(recs: seq<Rec>, start: nat, ghost first: nat, items: seq<Item>)
      returns (same: bool, items': seq<Item>)
      requires InChunk(recs, start, first, items) && pos < |recs|
      modifies this
      ensures InChunk(recs, start, first, items')
      ensures same ==> pos == old(pos) + 1
      ensures !same ==> pos == old(pos) && items' == items
      ensures !same && items != [] ==> items[|items| - 1].after == []
      ensures !same ==> Maximal(recs, start, pos, items)
    {
      ghost var prev := prevPc;
      items' := items;
      same := InSameChunk(recs, |items|, pos - start + 1);
      if same {
        Joins(recs, start, first, items, pos, prev);
        items' := WithRecord(items, recs[pos]);
        pos := pos + 1;
      } else {
        ChunkEnds(recs, start, first, items, pos, prev);
      }
    }

    /** The records in front of the chunk. */
    method SkipOthers(recs: seq<Rec>) returns (before: seq<Rec>)
      requires pos <= |recs|
      modifies this`pos
      ensures old(pos) <= pos <= |recs| && before == recs[old(pos)..pos]
      ensures forall k :: 0 <= k < |before| ==> !before[k].Instr?
      ensures pos < |recs| ==> recs[pos].Instr?
    {
      before := [];
      while pos < |recs| && !recs[pos].Instr?
        invariant old(pos) <= pos <= |recs| && before == recs[old(pos)..pos]
        invariant forall k :: 0 <= k < |before| ==> !before[k].Instr?
      {
        before := before + [recs[pos]];
        pos := pos + 1;
      }
    }

    /** read_chunk: the records before the chunk, then the chunk itself (empty when the buffer
        ends, or when too many records came before it). A nonempty chunk begins and ends with an
        instruction, its pcs are 4 apart, its runs of other records have at most 255 members and
        the call covers at most 999 records; it goes on as long as the next record can join it. Every call consumes
        at least one record. */
    method ReadChunk(recs: seq<Rec>) returns (before: seq<Rec>, items: seq<Item>)
      requires pos < |recs|
      modifies this
      ensures old(pos) < pos <= |recs|
      ensures recs[old(pos)..pos] == before + FlatItems(items)
      ensures forall k :: 0 <= k < |before| ==> !before[k].Instr?
      ensures items != [] ==> GoodChunk(items) && |before| + |FlatItems(items)| < MAX_CHUNKSIZE
      ensures AllInstr(items) && Maximal(recs, old(pos), pos, items)
    {
      var start := pos;
      before := SkipOthers(recs);
      ghost var first := pos;
      items := [];
      var same := true;
      while pos < |recs| && same
        invariant InChunk(recs, start, first, items)
        invariant !same && items != [] ==> items[|items| - 1].after == []
        invariant !same ==> Maximal(recs, start, pos, items)
        decreases |recs| - pos, same
      {
        same, items := Accept(recs, start, first, items);
      }
      assert recs[start..pos] == recs[start..first] + recs[first..pos];
      if items != [] {
        ItemsNoLonger(items);
      }
    }

    /** rstz_compress: cut a whole buffer. */
    method Cut(recs: seq<Rec>) returns (gs: seq<Seg>)
      modifies this
      ensures CutOf(recs, gs)
    {
      pos := 0;
      gs := [];
      ghost var calls: seq<Call> := [];
      while pos < |recs|
        invariant pos <= |recs| && GoodSegs(gs) && FlatSegs(gs) == recs[..pos]
        invariant CallsCover(recs, calls, pos) && gs == AllPieces(calls)
      {
        ghost var c := Call(pos, pos, [], []);
        var before, items := ReadChunk(recs);
        c := Call(c.start, pos, before, items);
        Adjacent(recs, c.start, pos);
        AddCall(recs, calls, c);
        gs := AddPieces(gs, before, items);
        calls := calls + [c];
      }
      assert recs[..pos] == recs;
    }
  }

  // ------------------------------------------------------------ the cut of a buffer

  /** One call of read_chunk: the records it covers, and what it makes of them. */
  datatype Call = Call(start: nat, end: nat, before: seq<Rec>, items: seq<Item>)

  ghost predicate WfCall(recs: seq<Rec>, c: Call) {
    && c.start < c.end <= |recs| && recs[c.start..c.end] == c.before + FlatItems(c.items)
    && (forall k :: 0 <= k < |c.before| ==> !c.before[k].Instr?)
    && (c.items != [] ==> GoodChunk(c.items) && |c.before| + |FlatItems(c.items)| < MAX_CHUNKSIZE)
    && AllInstr(c.items) && Maximal(recs, c.start, c.end, c.items)
  }

  /** Calls one after the other up to `at`. */
  ghost predicate CallsCover(recs: seq<Rec>, calls: seq<Call>, at: nat) {
    Contiguous(calls, at) && forall i :: 0 <= i < |calls| ==> WfCall(recs, calls[i])
  }

  predicate Contiguous(calls: seq<Call>, at: nat) {
    && EndOf(calls, |calls|) == at
    && forall i {:trigger EndOf(calls, i)} :: 0 <= i < |calls| ==> calls[i].start == EndOf(calls, i)
  }

  /** Where the first `i` calls have led. */
  function EndOf(calls: seq<Call>, i: nat): nat
    requires i <= |calls|
  {
    if i == 0 then 0 else calls[i - 1].end
  }

  function Lones(rs: seq<Rec>): (gs: seq<Seg>)
    ensures |gs| == |rs|
  {
    seq(|rs|, i requires 0 <= i < |rs| => Lone(rs[i]))
  }

  /** The segments of one call: the records in front of the chunk, and the chunk. */
  function Pieces(c: Call): seq<Seg> {
    Lones(c.before) + (if c.items == [] then [] else [Run(c.items)])
  }

  function AllPieces(calls: seq<Call>): seq<Seg> {
    if calls == [] then [] else AllPieces(calls[..|calls| - 1]) + Pieces(calls[|calls| - 1])
  }

  /** `gs` is what calls of read_chunk, each going on as long as it can, make of the buffer. */
  ghost predicate IsCut(recs: seq<Rec>, gs: seq<Seg>) {
    exists calls: seq<Call> :: CallsCover(recs, calls, |recs|) && gs == AllPieces(calls)
  }

  /** The list of segments that Cut gives for a buffer. */
  ghost predicate CutOf(recs: seq<Rec>, gs: seq<Seg>) {
    GoodSegs(gs) && FlatSegs(gs) == recs && IsCut(recs, gs)
  }

  lemma AddCall(recs: seq<Rec>, calls: seq<Call>, c: Call)
    requires CallsCover(recs, calls, c.start) && WfCall(recs, c)
    ensures CallsCover(recs, calls + [c], c.end) && AllPieces(calls + [c]) == AllPieces(calls) + Pieces(c)
  {
    AddNext(calls, c);
    assert (calls + [c])[..|calls|] == calls;
  }

  lemma AddNext(calls: seq<Call>, c: Call)
    requires Contiguous(calls, c.start)
    ensures Contiguous(calls + [c], c.end)
  {
    var calls' := calls + [c];
    forall i | 0 <= i < |calls'| ensures calls'[i].start == EndOf(calls', i) {
      assert i < |calls| ==> calls'[i] == calls[i] && calls[i].start == EndOf(calls, i);
      if i > 0 { assert calls'[i - 1] == calls[i - 1]; }
    }
  }

  ghost predicate GoodChunk(items: seq<Item>) {
    && WfItems(items) && EndsWithInstr(items) && |FlatItems(items)| < MAX_CHUNKSIZE
    && forall k, j :: 0 <= k < |items| && 0 <= j < |items[k].after| ==> !items[k].after[j].Instr?
  }

  ghost predicate GoodSegs(gs: seq<Seg>) {
    forall i :: 0 <= i < |gs| ==> if gs[i].Lone? then !gs[i].rec.Instr? else GoodChunk(gs[i].items)
  }

  lemma {:induction false} GoodSnoc(gs: seq<Seg>, g: Seg)
    requires GoodSegs(gs) && if g.Lone? then !g.rec.Instr? else GoodChunk(g.items)
    ensures GoodSegs(gs + [g]) && FlatSegs(gs + [g]) == FlatSegs(gs) + FlatSeg(g)
  {
    FlatSegsSnoc(gs, g);
  }

  lemma Adjacent<T>(s: seq<T>, i: nat, j: nat)
    requires i <= j <= |s|
    ensures s[..j] == s[..i] + s[i..j]
  {
  }

  /** What one call of read_chunk found, appended. */
  method AddPieces(gs: seq<Seg>, before: seq<Rec>, items: seq<Item>) returns (gs': seq<Seg>)
    requires GoodSegs(gs) && (forall k :: 0 <= k < |before| ==> !before[k].Instr?)
    requires items != [] ==> GoodChunk(items)
    ensures GoodSegs(gs') && FlatSegs(gs') == FlatSegs(gs) + (before + FlatItems(items))
    ensures gs' == gs + (Lones(before) + if items == [] then [] else [Run(items)])
  {
    gs' := AddLones(gs, before);
    AppendAssoc(FlatSegs(gs), before, FlatItems(items));
    if items != [] {
      GoodSnoc(gs', Run(items));
      gs' := gs' + [Run(items)];
    }
  }

  lemma LonesSnoc(gs: seq<Seg>, rs: seq<Rec>, r: Rec)
    ensures gs + Lones(rs + [r]) == (gs + Lones(rs)) + [Lone(r)]
  {
    assert Lones(rs + [r]) == Lones(rs) + [Lone(r)];
  }

  method AddLones(gs: seq<Seg>, before: seq<Rec>) returns (gs': seq<Seg>)
    requires GoodSegs(gs) && forall k :: 0 <= k < |before| ==> !before[k].Instr?
    ensures GoodSegs(gs') && FlatSegs(gs') == FlatSegs(gs) + before && gs' == gs + Lones(before)
  {
    gs' := gs;
    for k := 0 to |before|
      invariant GoodSegs(gs') && FlatSegs(gs') == FlatSegs(gs) + before[..k] 
      invariant gs' == gs + Lones(before[..k])
    {
      GoodSnoc(gs', Lone(before[k]));
      LonesSnoc(gs, before[..k], before[k]);
      assert before[..k + 1] == before[..k] + [before[k]];
      AppendAssoc(FlatSegs(gs), before[..k], [before[k]]);
      gs' := gs' + [Lone(before[k])];
    }
    assert before[..|before|] == before;
  }

  /** A chunk has no more instructions than records. */
  lemma {:induction false} ItemsNoLonger(items: seq<Item>)
    ensures |items| <= |FlatItems(items)|
  {
    if items != [] { ItemsNoLonger(items[1..]); }
  }
}
