/** What the caches are for: what has just been coded is cheap the next time. A pavadiff record becomes one byte; a
    chunk loses its instruction words, and each address that has not changed becomes one byte. */
module RstRepeats {
  import opened Basics
  import opened RstTypes
  import opened Lru
  import opened RstCaches
  import opened EaCode
  import opened RstCodec
  import opened RstInvariants
  import opened RstShortest

  /** The same record; without a valid address the address difference does not count. */
  predicate SamePavadiff(a: Rec, b: Rec) {
    && a.Pavadiff? && b.Pavadiff? && a.eaValid == b.eaValid && a.icontext == b.icontext && a.dcontext == b.dcontext
    && a.bits == b.bits && a.pcPaVa == b.pcPaVa && (a.eaValid ==> a.eaPaVa == b.eaPaVa)
  }

  /** In every reachable state a pavadiff record takes one byte when it, or one that differs in nothing that counts, has
      just been coded. */
  lemma PavadiffAgain(s: Shared, log: Log, r: Rec, again: Rec, rid: int)
    requires WfShared(s, log) && SamePavadiff(r, again)
    ensures var z := PutRec(AfterRec(s, r), again, rid);
            |z| == 1 && z[0].B? && z0_PAVADIFF_T <= z[0].b < z0_PAVADIFF_T + PAVA_SIZE
  {
    var i, v := PavaSearch(s.pava.entries, r, 0), Victim(s.pava.ts);
    var entries := AfterRec(s, r).pava.entries;
    if i == -1 {
      PavaWriteKeeps(s.pava, log.pava, r);
      PavaWriteThenSearch(s.pava, r);
      assert PavaMatches(entries[v], again);
    } else {
      assert PavaMatches(entries[i], again);
    }
    PavaFound(entries, again, 0);
  }

  /** Addresses equal to those in the table. */
  lemma {:induction false} SameAddresses(eas: seq<u64>, bases: seq<u64>, from: nat)
    requires from + |eas| <= |bases| && bases[from..from + |eas|] == eas
    ensures PutEas(eas, bases, from) == Bs(seq(|eas|, _ => 0))
    decreases |eas|
  {
    if eas != [] {
      var next := from + 1;
      assert eas[0] == bases[from..from + |eas|][0] == bases[from];
      assert eas[1..] == bases[from..from + |eas|][1..] == bases[next..next + |eas[1..]|];
      SameAddress(eas[0]);
      SameAddresses(eas[1..], bases, next);
      assert Bs(seq(|eas|, _ => 0)) == [B(0)] + Bs(seq(|eas| - 1, _ => 0));
    }
  }

  /** An earlier way of the chunk's set is taken for it whatever its words: it is for the same pc and long enough. */
  predicate Shadowed(s: Shared, items: seq<Item>)
    requires WfItems(items)
  {
    var set4 := s.table[HashOf(items[0].instr.pc)];
    0 <= Search(set4, items[0].instr.pc, |items|) < Victim(set4.ts)
  }

  lemma {:induction false} TableAgain(s: Shared, log: Log, items: seq<Item>)
    requires WfShared(s, log) && WfItems(items)
    ensures var pc, set4 := items[0].instr.pc, TableAfter(s, items)[HashOf(items[0].instr.pc)];
            var i := SearchWords(set4, pc, Words(items));
            && (i != -1 <==> HitWay(s, items) != -1 || !Shadowed(s, items))
            && (i != -1 ==> Eas(items) <= set4.ways[i].eaBuf)
  {
    var pc, i := items[0].instr.pc, HitWay(s, items);
    var set4 := s.table[HashOf(pc)];
    TableKeeps(s, log, items);
    if i == -1 {
      WriteThenSearch(set4, pc, Words(items), Eas(items), Words(items));
    } else {
      UpdateThenSearch(set4, i, Eas(items), pc, Words(items));
    }
  }

  /** A chunk with the pc and the words of the one just coded is stored as a repeated chunk if and only if that one was,
      or was not shadowed when it was entered: code that has changed in place is not recognised as long as an earlier
      way holds what it was. A repeated chunk has no words, and with the same addresses a zero byte for each. */
  lemma {:induction false} ChunkAgain(cfg: Config, s: Shared, log: Log, items: seq<Item>, again: seq<Item>,
                                      rest: Stream)
    requires WfShared(s, log) && WfItems(items) && WfItems(again) && items[0].instr.pc != 0
    requires again[0].instr.pc == items[0].instr.pc && Words(again) == Words(items)
    ensures var s1 := AfterChunk(cfg, s, items);
            && (HitWay(s1, again) != -1 <==> HitWay(s, items) != -1 || !Shadowed(s, items))
            && (HitWay(s1, again) != -1 && Eas(again) == Eas(items) ==>
                ChunkHead(s1, again, rest) ==
                [C(zL_INSTR_T, |again|, again[0].instr.pc)]
                  + (Bs(Flags(again)) + (Bs(seq(|Eas(again)|, _ => 0)) + (Bs(Counts(again)) + rest))))
  {
    TableAgain(s, log, items);
    var s1, eas := AfterChunk(cfg, s, items), Eas(again);
    var i := HitWay(s1, again);
    if i != -1 && eas == Eas(items) {
      var bases := s1.table[HashOf(again[0].instr.pc)].ways[i].eaBuf;
      assert bases[0..0 + |eas|] == eas;
      SameAddresses(eas, bases, 0);
    }
  }

  // ------------------------------------------------------------ a chunk that has changed in place

  /** A chunk of one instruction without an address. */
  function Single(pc: u64, word: u32): (items: seq<Item>)
    ensures WfItems(items)
  {
    [Item(Instr(false, false, false, false, false, false, false, word, pc, 0), [])]
  }

  lemma SingleWords(pc: u64, word: u32)
    ensures Words(Single(pc, word)) == [word]
  {
    assert Single(pc, word)[1..] == [];
  }

  /** The first chunk of a new table goes into way 0, and the next victim is way 1. */
  lemma FirstWrite(pc: u64, words: seq<u32>, eas: seq<u64>)
    ensures var s := SetWrite(EmptySet(), pc, words, eas);
            s.ways[0].pc == pc && s.ways[0].words == words && Victim(s.ts) == 1
  {
    var s := SetWrite(EmptySet(), pc, words, eas);
    assert Victim(EmptySet().ts) == 0;
    assert s.ts[0] == ASSOC - 1 && s.ts[1] == 0;
  }

  /** The word at a pc changes: the new chunk is entered, and is not recognised when it comes again. */
  lemma {:induction false} ChangedInPlace(cfg: Config, pc: u64, a: u32, b: u32)
    requires pc != 0 && a != b
    ensures var s1 := AfterChunk(cfg, Initial(), Single(pc, a));
            && HitWay(s1, Single(pc, b)) == -1
            && HitWay(AfterChunk(cfg, s1, Single(pc, b)), Single(pc, b)) == -1
  {
    var x, y, h := Single(pc, a), Single(pc, b), HashOf(pc);
    SingleWords(pc, a);
    SingleWords(pc, b);
    InitialOk();
    SegKeeps(cfg, Initial(), NoEvents(), Run(x));
    assert Initial().table[h] == EmptySet();
    assert HitWay(Initial(), x) == -1;
    FirstWrite(pc, [a], Eas(x));
    var s1 := AfterChunk(cfg, Initial(), x);
    assert s1.table[h] == SetWrite(EmptySet(), pc, [a], Eas(x));
    assert s1.table[h].ways[0].words[..1] == [a];
    assert Search(s1.table[h], pc, 1) == 0;
    ChunkAgain(cfg, s1, LogSeg(NoEvents(), Initial(), Run(x)), y, y, []);
  }
}
