/** In every reachable state the ranks of the chunk table and of the pavadiff cache follow the
    operations that the trace has caused, so that replace() always finds its victim, and it is
    an unused entry or the least recently used one. */
module RstInvariants {
  import opened Basics
  import opened RstTypes
  import opened Lru
  import opened RstCaches
  import opened RstCodec

  /** The operations on each set of the table and on the pavadiff cache, oldest first. */
  datatype Log = Log(table: seq<seq<Event>>, pava: seq<Event>)

  ghost predicate WfShared(s: Shared, log: Log) {
    && WfPava(s.pava, log.pava)
    && |log.table| == TABLE_SIZE && forall h :: 0 <= h < TABLE_SIZE ==> WfSet(s.table[h], log.table[h])
  }

  function Initial(): Shared {
    Shared(seq(TABLE_SIZE, _ => EmptySet()), EmptyPava(), map[], 0, 0)
  }

  function NoEvents(): Log {
    Log(seq(TABLE_SIZE, _ => []), [])
  }

  /** A search that finds an entry leads to an update of it, and otherwise to a write. */
  function EventOf(found: int): Event
    requires found >= -1
  {
    if found == -1 then Written else Touched(found)
  }

  function LogRec(log: Log, s: Shared, r: Rec): Log {
    if r.Pavadiff? then log.(pava := log.pava + [EventOf(PavaSearch(s.pava.entries, r, 0))]) else log
  }

  function LogRecs(log: Log, s: Shared, fs: seq<Follower>): (l: Log)
    ensures l.table == log.table
    decreases |fs|
  {
    if fs == [] then log else LogRecs(LogRec(log, s, fs[0].rec), AfterRec(s, fs[0].rec), fs[1..])
  }

  function LogSeg(log: Log, s: Shared, g: Seg): (l: Log)
    requires WfSeg(g) && |log.table| == TABLE_SIZE
    ensures |l.table| == TABLE_SIZE
  {
    match g
    case Lone(rec) => LogRec(log, s, rec)
    case Run(items) =>
      var h := HashOf(items[0].instr.pc);
      if items[0].instr.pc == 0 then log
      else LogRecs(log, s, Followers(items)).(table := log.table[h := log.table[h] + [EventOf(HitWay(s, items))]])
  }

  function LogBuffer(cfg: Config, log: Log, s: Shared, gs: seq<Seg>): (l: Log)
    requires WfSegs(gs) && |log.table| == TABLE_SIZE
    ensures |l.table| == TABLE_SIZE
    decreases |gs|
  {
    if gs == [] then log else LogBuffer(cfg, LogSeg(log, s, gs[0]), AfterSeg(cfg, s, gs[0]), gs[1..])
  }

  lemma {:induction false} InitialOk()
    ensures WfShared(Initial(), NoEvents())
  {
    EmptyPavaOk();
    EmptySetOk();
  }

  lemma {:induction false} RecKeeps(s: Shared, log: Log, r: Rec)
    requires WfShared(s, log)
    ensures WfShared(AfterRec(s, r), LogRec(log, s, r))
    ensures AfterRec(s, r).table == s.table
  {
    if r.Pavadiff? {
      var i := PavaSearch(s.pava.entries, r, 0);
      if i == -1 {
        PavaWriteKeeps(s.pava, log.pava, r);
      } else {
        PavaTouchKeeps(s.pava, log.pava, i);
      }
    }
  }

  lemma {:induction false} RecsKeep(s: Shared, log: Log, fs: seq<Follower>)
    requires WfShared(s, log)
    ensures WfShared(AfterRecs(s, fs), LogRecs(log, s, fs)) && AfterRecs(s, fs).table == s.table
    decreases |fs|
  {
    if fs != [] {
      RecKeeps(s, log, fs[0].rec);
      RecsKeep(AfterRec(s, fs[0].rec), LogRec(log, s, fs[0].rec), fs[1..]);
    }
  }

  /** A chunk either replaces a victim that exists or touches a way in use. */
  lemma {:induction false} TableKeeps(s: Shared, log: Log, items: seq<Item>)
    requires WfShared(s, log) && WfItems(items)
    ensures HitWay(s, items) == -1 ==> Victim(s.table[HashOf(items[0].instr.pc)].ts) < ASSOC
    ensures var h := HashOf(items[0].instr.pc);
            WfSet(TableAfter(s, items)[h], log.table[h] + [EventOf(HitWay(s, items))])
  {
    var pc, i := items[0].instr.pc, HitWay(s, items);
    var h := HashOf(pc);
    if i == -1 {
      SetWriteKeeps(s.table[h], log.table[h], pc, Words(items), Eas(items));
    } else {
      SetUpdateKeeps(s.table[h], log.table[h], i, Eas(items));
    }
  }

  lemma {:induction false} SegKeeps(cfg: Config, s: Shared, log: Log, g: Seg)
    requires WfShared(s, log) && WfSeg(g)
    ensures WfShared(AfterSeg(cfg, s, g), LogSeg(log, s, g))
  {
    match g
    case Lone(rec) => RecKeeps(s, log, rec);
    case Run(items) =>
      if items[0].instr.pc != 0 {
        RecsKeep(s, log, Followers(items));
        TableKeeps(s, log, items);
      }
  }

  /** Over every run of the compressor, and so of the decompressor. */
  lemma {:induction false} RunKeeps(cfg: Config, s: Shared, log: Log, gs: seq<Seg>)
    requires WfShared(s, log) && WfSegs(gs)
    ensures WfShared(AfterBuffer(cfg, s, gs), LogBuffer(cfg, log, s, gs))
    decreases |gs|
  {
    if gs != [] {
      SegKeeps(cfg, s, log, gs[0]);
      RunKeeps(cfg, AfterSeg(cfg, s, gs[0]), LogSeg(log, s, gs[0]), gs[1..]);
    }
  }

  /** What replace() would choose after `run`: an entry that no operation of the run has used,
      or, when there is none, the entry that every other one has been used since. */
  ghost predicate ChoosesLeastRecent(ts: Ranks, run: seq<Event>) {
    var n, v := |ts|, Victim(ts);
    && v < n
    && ((forall k :: 0 <= k < |run| ==> EntryUsed(n, run, k) != v)
        || (forall j :: 0 <= j < n && j != v ==> UsedSince(n, run, v, j)))
  }

  /** From new caches, after any buffers: every victim is the least recently used entry of the
      operations that the trace has really caused. */
  lemma {:induction false} VictimsAreLeastRecent(cfg: Config, gs: seq<Seg>)
    requires WfSegs(gs)
    ensures var s, log := AfterBuffer(cfg, Initial(), gs), LogBuffer(cfg, NoEvents(), Initial(), gs);
            && ChoosesLeastRecent(s.pava.ts, log.pava)
            && forall h :: 0 <= h < TABLE_SIZE ==> ChoosesLeastRecent(s.table[h].ts, log.table[h])
  {
    InitialOk();
    RunKeeps(cfg, Initial(), NoEvents(), gs);
    var s, log := AfterBuffer(cfg, Initial(), gs), LogBuffer(cfg, NoEvents(), Initial(), gs);
    VictimIsLeastRecent(PAVA_SIZE, log.pava);
    forall h | 0 <= h < TABLE_SIZE
      ensures ChoosesLeastRecent(s.table[h].ts, log.table[h])
    {
      assert WfSet(s.table[h], log.table[h]);
      VictimIsLeastRecent(ASSOC, log.table[h]);
    }
  }
}
