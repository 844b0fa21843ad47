/** The three predictive caches that compressor and decompressor keep equal: the 4-way chunk
    table, the 8-entry pavadiff cache and the direct-mapped value cache. */
module RstCaches {
  import opened Basics
  import opened RstTypes
  import opened Lru

  const ASSOC := 4
  const TABLE_SIZE := 3391
  const PAVA_SIZE := 8
  const VC_SIZE := 65535

  // ------------------------------------------------------------ histories

  /** The ranks of a cache are those of a run of operations on it, and the entries in use are
      exactly those that the run has written. */
  ghost predicate Follows(ts: Ranks, filled: seq<bool>, run: seq<Event>) {
    && |filled| == |ts| && ValidRun(|ts|, run) && ts == RanksAfter(|ts|, run)
    && forall i :: 0 <= i < |ts| ==> (UsesAfter(|ts|, run)[i].At? <==> filled[i])
  }

  lemma {:induction false} FollowsTouch(ts: Ranks, filled: seq<bool>, run: seq<Event>, i: nat)
    requires Follows(ts, filled, run) && i < |ts| && filled[i]
    ensures Follows(Touch(ts, i), filled, run + [Touched(i)])
  {
    var run' := run + [Touched(i)];
    assert run'[..|run|] == run;
    assert EntryUsed(|ts|, run', |run|) == i;
  }

  lemma {:induction false} FollowsEvict(ts: Ranks, filled: seq<bool>, run: seq<Event>)
    requires Follows(ts, filled, run) && ts != []
    ensures Victim(ts) < |ts|
    ensures Follows(Evict(ts, Victim(ts)), filled[Victim(ts) := true], run + [Written])
  {
    var run' := run + [Written];
    VictimIsLeastRecent(|ts|, run);
    assert run'[..|run|] == run;
    assert EntryUsed(|ts|, run', |run|) == Victim(ts);
  }

  // ------------------------------------------------------------ the chunk table

  /** hash_table_t; `eaBuf` is the whole allocation, empty when there is none. */
  datatype Way = Way(pc: u64, words: seq<u32>, numEa: nat, eaBuf: seq<u64>)

  datatype ChunkSet = ChunkSet(ts: Ranks, ways: seq<Way>)

  function WaysFilled(ways: seq<Way>): (f: seq<bool>)
    ensures |f| == |ways| && forall i :: 0 <= i < |f| ==> f[i] == (ways[i].words != [])
  {
    seq(|ways|, i requires 0 <= i < |ways| => ways[i].words != [])
  }

  /** Every allocation for addresses has room for at least this many. */
  const MIN_EAS := 128

  /** And for twice the blocks of 64 that its addresses began when they were last written. */
  predicate RoomyWay(w: Way) {
    (w.eaBuf != [] ==> |w.eaBuf| >= MIN_EAS * (w.numEa / 64 + 1)) && (w.words != [] ==> w.eaBuf != [])
  }

  predicate Roomy(ways: seq<Way>) {
    forall i :: 0 <= i < |ways| ==> RoomyWay(ways[i])
  }

  /** The state of a set after the operations `run`. */
  ghost predicate WfSet(s: ChunkSet, run: seq<Event>) {
    |s.ts| == |s.ways| == ASSOC && Follows(s.ts, WaysFilled(s.ways), run) && Roomy(s.ways)
  }

  function EmptySet(): ChunkSet {
    ChunkSet(seq(ASSOC, _ => 0), seq(ASSOC, _ => Way(0, [], 0, [])))
  }

  type Set4 = s: ChunkSet | |s.ts| == |s.ways| == ASSOC witness EmptySet()

  /** search(): the first way for this pc with at least `n` instructions, or -1. */
  function FirstMatch(ways: seq<Way>, pc: u64, n: nat, from: nat): (i: int)
    requires from <= |ways|
    ensures i == -1 || (from <= i < |ways| && ways[i].pc == pc && |ways[i].words| >= n)
    decreases |ways| - from, ways
  {
    if from == |ways| then -1
    else if ways[from].pc == pc && |ways[from].words| >= n then from
    else FirstMatch(ways, pc, n, from + 1)
  }

  function Search(s: Set4, pc: u64, n: nat): (i: int)
    ensures i == -1 || (0 <= i < ASSOC && s.ways[i].pc == pc && |s.ways[i].words| >= n)
  {
    FirstMatch(s.ways, pc, n, 0)
  }

  /** The same loop with instruction words to compare: words that differ end the search. */
  function FirstWords(ways: seq<Way>, pc: u64, words: seq<u32>, from: nat): (i: int)
    requires from <= |ways|
    ensures i == -1 || (from <= i < |ways| && |ways[i].words| >= |words|)
    decreases |ways| - from, ways
  {
    if from == |ways| then -1
    else if ways[from].pc == pc && |ways[from].words| >= |words| then
      if ways[from].words[..|words|] == words then from else -1
    else FirstWords(ways, pc, words, from + 1)
  }

  function SearchWords(s: Set4, pc: u64, words: seq<u32>): (i: int)
    ensures i == -1 || (0 <= i < ASSOC && |s.ways[i].words| >= |words|)
  {
    FirstWords(s.ways, pc, words, 0)
  }

  lemma {:induction false} FirstWordsAgree(ways: seq<Way>, pc: u64, words: seq<u32>, from: nat)
    requires from <= |ways|
    ensures var i := FirstWords(ways, pc, words, from);
            i != -1 ==> FirstMatch(ways, pc, |words|, from) == i && ways[i].words[..|words|] == words
    decreases |ways| - from
  {
    if from < |ways| { FirstWordsAgree(ways, pc, words, from + 1); }
  }

  /** Loop-chunk search agreement: where the compressor's search with instruction words finds
      a way, the decompressor's search without them finds the same way and reads the words. */
  lemma {:induction false} SearchAgreement(s: Set4, pc: u64, words: seq<u32>)
    requires SearchWords(s, pc, words) != -1
    ensures Search(s, pc, |words|) == SearchWords(s, pc, words)
    ensures s.ways[Search(s, pc, |words|)].words[..|words|] == words
  {
    FirstWordsAgree(s.ways, pc, words, 0);
  }

  function SegmentSize(num: nat, size: nat): nat {
    (num * size / 512 + 1) * 512
  }

  function Overlay(eas: seq<u64>, buf: seq<u64>): seq<u64> {
    if |eas| <= |buf| then eas + buf[|eas|..] else eas
  }

  /** copy_ea_buf: a larger zeroed allocation when the segment grows, else the old one. */
  function CopyEas(w: Way, eas: seq<u64>): seq<u64> {
    if w.eaBuf == [] || SegmentSize(w.numEa, 8) < SegmentSize(|eas|, 8)
    then Overlay(eas, seq(2 * SegmentSize(|eas|, 8) / 8, _ => 0))
    else Overlay(eas, w.eaBuf)
  }

  /** write(): replace the victim's contents and make it the most recent. Without a victim
      the program stops; WfSet excludes that. */
  function SetWrite(s: Set4, pc: u64, words: seq<u32>, eas: seq<u64>): Set4 {
    var v := Victim(s.ts);
    if v == ASSOC then s
    else ChunkSet(Evict(s.ts, v), s.ways[v := Way(pc, words, |eas|, CopyEas(s.ways[v], eas))])
  }

  /** update(): new effective addresses for a way just used; num_ea is left as it was. */
  function SetUpdate(s: Set4, i: nat, eas: seq<u64>): Set4
    requires i < ASSOC
  {
    ChunkSet(Touch(s.ts, i), s.ways[i := s.ways[i].(eaBuf := Overlay(eas, s.ways[i].eaBuf))])
  }

  lemma Segments(num: nat)
    ensures SegmentSize(num, 8) == 512 * (num / 64 + 1)
  {
  }

  /** write() never copies past an allocation: it makes a larger one when the addresses begin more blocks of 64 than
      those written before, and otherwise what is behind them stays. */
  lemma CopyRoomy(w: Way, eas: seq<u64>)
    requires RoomyWay(w)
    ensures var kept := w.eaBuf != [] && |eas| / 64 <= w.numEa / 64;
            && (kept ==> |eas| <= |w.eaBuf| && CopyEas(w, eas) == eas + w.eaBuf[|eas|..])
            && (!kept ==> CopyEas(w, eas) == eas + seq(MIN_EAS * (|eas| / 64 + 1) - |eas|, _ => 0))
    ensures |CopyEas(w, eas)| >= MIN_EAS * (|eas| / 64 + 1)
  {
    Segments(|eas|);
    Segments(w.numEa);
  }

  /** In every reachable set a victim exists, and both operations lengthen the history. */
  lemma {:induction false} SetWriteKeeps(s: Set4, run: seq<Event>, pc: u64, words: seq<u32>, eas: seq<u64>)
    requires WfSet(s, run) && words != []
    ensures Victim(s.ts) < ASSOC && WfSet(SetWrite(s, pc, words, eas), run + [Written])
  {
    FollowsEvict(s.ts, WaysFilled(s.ways), run);
    var v := Victim(s.ts);
    assert RoomyWay(s.ways[v]);
    CopyRoomy(s.ways[v], eas);
    assert WaysFilled(SetWrite(s, pc, words, eas).ways) == WaysFilled(s.ways)[v := true];
  }

  lemma {:induction false} SetUpdateKeeps(s: Set4, run: seq<Event>, i: nat, eas: seq<u64>)
    requires WfSet(s, run) && i < ASSOC && s.ways[i].words != []
    ensures WfSet(SetUpdate(s, i, eas), run + [Touched(i)])
  {
    FollowsTouch(s.ts, WaysFilled(s.ways), run, i);
    assert WaysFilled(SetUpdate(s, i, eas).ways) == WaysFilled(s.ways);
  }

  // ------------------------------------------------------------ what has been written is found

  lemma {:induction false} SameSearch(a: seq<Way>, b: seq<Way>, pc: u64, words: seq<u32>, from: nat)
    requires from <= |a| == |b| && forall j :: from <= j < |a| ==> a[j].pc == b[j].pc && a[j].words == b[j].words
    ensures FirstWords(a, pc, words, from) == FirstWords(b, pc, words, from)
    decreases |a| - from
  {
    if from < |a| { SameSearch(a, b, pc, words, from + 1); }
  }

  /** A chunk put in way `v`, or the beginning of it, is found there, unless an earlier way for its pc is long enough:
      the words of that way decide. */
  lemma {:induction false} FoundAt(ways: seq<Way>, w: Way, words: seq<u32>, v: nat, from: nat)
    requires from <= v < |ways| && words <= w.words
    ensures FirstWords(ways[v := w], w.pc, words, from) ==
            var i := FirstMatch(ways, w.pc, |words|, from);
            if i == -1 || i >= v then v else FirstWords(ways, w.pc, words, from)
    decreases v - from
  {
    if from < v { FoundAt(ways, w, words, v, from + 1); }
  }

  /** After write(): the victim's way holds the chunk and its addresses, the other ways are as they were, and the chunk,
      or any chunk that is the beginning of it, is found there, unless an earlier way for its pc is long enough to be
      taken first. */
  lemma {:induction false} WriteThenSearch(s: Set4, pc: u64, words: seq<u32>, eas: seq<u64>, part: seq<u32>)
    requires Victim(s.ts) < ASSOC && part <= words
    ensures var v, s', i := Victim(s.ts), SetWrite(s, pc, words, eas), Search(s, pc, |part|);
      && SearchWords(s', pc, part) == (if i == -1 || i >= v then v else SearchWords(s, pc, part))
      && s'.ways[v].pc == pc && s'.ways[v].words == words && eas <= s'.ways[v].eaBuf
      && forall j :: 0 <= j < ASSOC && j != v ==> s'.ways[j] == s.ways[j]
  {
    var v, s' := Victim(s.ts), SetWrite(s, pc, words, eas);
    FoundAt(s.ways, s'.ways[v], part, v, 0);
    OverlayFirst(s.ways[v], eas);
  }

  lemma OverlayFirst(w: Way, eas: seq<u64>)
    ensures eas <= CopyEas(w, eas) && eas <= Overlay(eas, w.eaBuf)
  {
  }

  /** After update(): the way holds the new addresses, nothing else changes, and every search gives what it gave. */
  lemma {:induction false} UpdateThenSearch(s: Set4, i: nat, eas: seq<u64>, pc: u64, words: seq<u32>)
    requires i < ASSOC
    ensures var s' := SetUpdate(s, i, eas);
      && SearchWords(s', pc, words) == SearchWords(s, pc, words)
      && s'.ways[i] == s.ways[i].(eaBuf := s'.ways[i].eaBuf) && eas <= s'.ways[i].eaBuf
      && forall j :: 0 <= j < ASSOC && j != i ==> s'.ways[j] == s.ways[j]
  {
    SameSearch(s.ways, SetUpdate(s, i, eas).ways, pc, words, 0);
    OverlayFirst(s.ways[i], eas);
  }

  lemma {:induction false} EmptySetOk()
    ensures WfSet(EmptySet(), [])
  {
  }

  function HashOf(pc: u64): (h: nat)
    ensures h < TABLE_SIZE
  {
    Wrap64((pc / 4) * 47) % TABLE_SIZE
  }

  lemma SameResidue(x: int, y: int, k: int)
    requires x == y + TABLE_SIZE * k
    ensures x % TABLE_SIZE == y % TABLE_SIZE
  {
  }

  /** Multiplying by 47 keeps residues apart: 1443 is its inverse. */
  lemma TimesKeeps(a: int, b: int)
    ensures (47 * a) % TABLE_SIZE == (47 * b) % TABLE_SIZE <==> a % TABLE_SIZE == b % TABLE_SIZE
  {
    if (47 * a) % TABLE_SIZE == (47 * b) % TABLE_SIZE {
      var k := 47 * a / TABLE_SIZE - 47 * b / TABLE_SIZE;
      assert 47 * a == 47 * b + TABLE_SIZE * k;
      SameResidue(a, b, 1443 * k - 20 * (a - b));
    }
    if a % TABLE_SIZE == b % TABLE_SIZE {
      var k := a / TABLE_SIZE - b / TABLE_SIZE;
      SameResidue(47 * a, 47 * b, 47 * k);
    }
  }

  lemma HashIs(a: nat)
    requires 4 * a < TWO64 && 47 * a < TWO64
    ensures HashOf(4 * a) == (47 * a) % TABLE_SIZE
  {
    assert 4 * a / 4 == a;
    assert Wrap64(a * 47) == 47 * a;
  }

  /** Two pcs fall into the same set exactly when their distance in instructions is a multiple of the table size, as
      long as the product does not overflow: a stretch of 3391 instructions is spread over all sets. */
  lemma HashSpreads(a: nat, b: nat)
    requires 4 * a < TWO64 && 4 * b < TWO64 && 47 * a < TWO64 && 47 * b < TWO64
    ensures HashOf(4 * a) == HashOf(4 * b) <==> a % TABLE_SIZE == b % TABLE_SIZE
  {
    HashIs(a);
    HashIs(b);
    TimesKeeps(a, b);
  }

  type Table = t: seq<Set4> | |t| == TABLE_SIZE witness seq(TABLE_SIZE, _ => EmptySet())

  // ------------------------------------------------------------ the pavadiff cache

  datatype PEntry = Vacant | Held(rec: Rec)

  datatype PavaSet = PavaSet(ts: Ranks, entries: seq<PEntry>)

  function PavaFilled(entries: seq<PEntry>): (f: seq<bool>)
    ensures |f| == |entries| && forall i :: 0 <= i < |f| ==> f[i] == entries[i].Held?
  {
    seq(|entries|, i requires 0 <= i < |entries| => entries[i].Held?)
  }

  /** The state of the cache after the operations `run`. */
  ghost predicate WfPava(p: PavaSet, run: seq<Event>) {
    |p.ts| == |p.entries| == PAVA_SIZE && Follows(p.ts, PavaFilled(p.entries), run)
  }

  function EmptyPava(): PavaSet {
    PavaSet(seq(PAVA_SIZE, _ => 0), seq(PAVA_SIZE, _ => Vacant))
  }

  type Pava8 = p: PavaSet | |p.ts| == |p.entries| == PAVA_SIZE witness EmptyPava()

  /** memcmp of the whole record, or without ea_pa_va when the searched record's is invalid. */
  predicate PavaMatches(e: PEntry, r: Rec)
    requires r.Pavadiff?
  {
    e.Held? && e.rec.Pavadiff? && (e.rec == r || (!r.eaValid && e.rec.(eaPaVa := r.eaPaVa) == r))
  }

  function PavaSearch(entries: seq<PEntry>, r: Rec, from: nat): (i: int)
    requires from <= |entries| && r.Pavadiff?
    ensures i == -1 || (from <= i < |entries| && PavaMatches(entries[i], r))
    decreases |entries| - from, entries
  {
    if from == |entries| then -1
    else if PavaMatches(entries[from], r) then from
    else PavaSearch(entries, r, from + 1)
  }

  function PavaWrite(p: Pava8, r: Rec): Pava8 {
    var v := Victim(p.ts);
    if v == PAVA_SIZE then p else PavaSet(Evict(p.ts, v), p.entries[v := Held(r)])
  }

  function PavaTouch(p: Pava8, i: nat): Pava8
    requires i < PAVA_SIZE
  {
    PavaSet(Touch(p.ts, i), p.entries)
  }

  lemma {:induction false} PavaWriteKeeps(p: Pava8, run: seq<Event>, r: Rec)
    requires WfPava(p, run)
    ensures Victim(p.ts) < PAVA_SIZE && WfPava(PavaWrite(p, r), run + [Written])
  {
    FollowsEvict(p.ts, PavaFilled(p.entries), run);
    HeldFills(p.entries, Victim(p.ts), r);
  }

  lemma HeldFills(entries: seq<PEntry>, v: nat, r: Rec)
    requires v < |entries|
    ensures PavaFilled(entries[v := Held(r)]) == PavaFilled(entries)[v := true]
  {
  }

  lemma {:induction false} PavaTouchKeeps(p: Pava8, run: seq<Event>, i: nat)
    requires WfPava(p, run) && i < PAVA_SIZE && p.entries[i].Held?
    ensures WfPava(PavaTouch(p, i), run + [Touched(i)])
  {
    FollowsTouch(p.ts, PavaFilled(p.entries), run, i);
  }

  lemma {:induction false} PavaFoundAt(entries: seq<PEntry>, r: Rec, v: nat, from: nat)
    requires from <= v < |entries| && r.Pavadiff? && PavaSearch(entries, r, from) == -1
    ensures PavaSearch(entries[v := Held(r)], r, from) == v
    decreases v - from
  {
    if from < v { PavaFoundAt(entries, r, v, from + 1); }
  }

  /** The search finds something exactly when some entry matches. */
  lemma {:induction false} PavaFound(entries: seq<PEntry>, r: Rec, from: nat)
    requires from <= |entries| && r.Pavadiff?
    ensures PavaSearch(entries, r, from) != -1 <==> exists i :: from <= i < |entries| && PavaMatches(entries[i], r)
    decreases |entries| - from
  {
    if from < |entries| && !PavaMatches(entries[from], r) { PavaFound(entries, r, from + 1); }
  }

  /** A record that was not found is found once it has been written, and the other entries are as they were. */
  lemma {:induction false} PavaWriteThenSearch(p: Pava8, r: Rec)
    requires r.Pavadiff? && PavaSearch(p.entries, r, 0) == -1 && Victim(p.ts) < PAVA_SIZE
    ensures var v, p' := Victim(p.ts), PavaWrite(p, r);
      && PavaSearch(p'.entries, r, 0) == v && p'.entries[v] == Held(r)
      && forall j :: 0 <= j < PAVA_SIZE && j != v ==> p'.entries[j] == p.entries[j]
  {
    PavaFoundAt(p.entries, r, Victim(p.ts), 0);
  }

  lemma {:induction false} EmptyPavaOk()
    ensures WfPava(EmptyPava(), [])
  {
  }

  // ------------------------------------------------------------ the value cache

  type Values = map<nat, u64>

  function VcIndex(v: u64): (i: u16)
    ensures i < VC_SIZE
  {
    v % VC_SIZE
  }

  predicate VcHit(vc: Values, v: u64) {
    VcIndex(v) in vc && vc[VcIndex(v)] == v
  }

  function VcInsert(vc: Values, v: u64): Values {
    vc[VcIndex(v) := v]
  }

  /** operator[]: the caller turns an invalid index into 0. */
  function VcGet(vc: Values, i: u16): u64 {
    if i in vc then vc[i] else 0
  }

  /** An inserted value is a hit and is read back; it displaces a value only when the two differ by a multiple of the
      number of slots. */
  lemma InsertThenHit(vc: Values, v: u64, w: u64)
    ensures VcHit(VcInsert(vc, v), v) && VcGet(VcInsert(vc, v), VcIndex(v)) == v
    ensures VcHit(vc, w) && !VcHit(VcInsert(vc, v), w) ==> v != w && (v - w) % VC_SIZE == 0
    ensures !VcHit(vc, w) && w != v ==> !VcHit(VcInsert(vc, v), w)
  {
  }
}
