/** rstzip v2 on one CPU's records: what Rstzipv2 writes and what Rstunzip makes of it. */
module RstCodec {
  import opened Basics
  import opened RstTypes
  import opened RstCaches
  import opened EaCode

  const MAX_CHUNKSIZE := 1000
  const SENTINEL := 255

  /** Options of a run: checksum every `freq` chunks (0 = never), and the machine's byte order. */
  datatype Config = Config(freq: byte, bigEndian: bool)

  /** What both sides keep: the caches, the running checksum and the chunk counter. */
  datatype Shared = Shared(table: Table, pava: Pava8, vc: Values, chksum: u64, chunks: nat)

  // ------------------------------------------------------------ typed runs of units

  function Bs(x: seq<byte>): (s: Stream)
    ensures |s| == |x|
  {
    seq(|x|, i requires 0 <= i < |x| => B(x[i]))
  }

  function Ws(x: seq<u32>): (s: Stream)
    ensures |s| == |x|
  {
    seq(|x|, i requires 0 <= i < |x| => W(x[i]))
  }

  function Ls(x: seq<u64>): (s: Stream)
    ensures |s| == |x|
  {
    seq(|x|, i requires 0 <= i < |x| => L(x[i]))
  }

  function ReadBs(n: nat, s: Stream): (r: Res<seq<byte>>)
    ensures r.Good? ==> |r.val| == n && |r.rest| <= |s|
  {
    if n <= |s| && forall i :: 0 <= i < n ==> s[i].B?
    then Good(seq(n, i requires 0 <= i < n && s[i].B? => s[i].b), s[n..]) else Bad
  }

  function ReadWs(n: nat, s: Stream): (r: Res<seq<u32>>)
    ensures r.Good? ==> |r.val| == n && |r.rest| <= |s|
  {
    if n <= |s| && forall i :: 0 <= i < n ==> s[i].W?
    then Good(seq(n, i requires 0 <= i < n && s[i].W? => s[i].w), s[n..]) else Bad
  }

  function ReadLs(n: nat, s: Stream): (r: Res<seq<u64>>)
    ensures r.Good? ==> |r.val| == n && |r.rest| <= |s|
  {
    if n <= |s| && forall i :: 0 <= i < n ==> s[i].L?
    then Good(seq(n, i requires 0 <= i < n && s[i].L? => s[i].d), s[n..]) else Bad
  }

  // ------------------------------------------------------------ register values

  /** compressIntegerRecord: `known` says that the register is the last instruction's rd. */
  function PutReg(vc: Values, id: byte, v: u64, known: bool): Stream {
    (if known then [] else [B(z_REGID_T), B(id)]) + PutValue(vc, v)
  }

  function PutValue(vc: Values, v: u64): Stream {
    if VcHit(vc, v) then [B(z_REGIDX_T), H(VcIndex(v))]
    else if v < 9 then [B(z_VALUE_0_T + v)]
    else if v < 0x100 then [B(z_REGVAL_8_T), B(v)]
    else if v < 0x1_0000 then [B(z_REGVAL_16_T), H(v)]
    else if v == TWO64 - 1 then [B(z_VALUE_MINUS1_T)]
    else if v < 0x1_0000_0000 then [B(z_REGVAL_32_T), W(v)]
    else [B(z_REGVAL_64_T), L(v)]
  }

  /** Only values that need 4 or 8 bytes enter the value cache. */
  function VcAfter(vc: Values, v: u64): Values {
    if VcHit(vc, v) || v < 0x1_0000 || v == TWO64 - 1 then vc else VcInsert(vc, v)
  }

  /** `id` is -1 when the stream leaves the register to the last instruction. */
  datatype RegVal = RegVal(id: int, v: u64, vc: Values)

  /** decompressReg without its index-0 part. */
  function GetReg(vc: Values, s: Stream): (r: Res<RegVal>)
    ensures r.Good? ==> |r.rest| < |s| && -1 <= r.val.id < 256
  {
    if |s| >= 2 && s[0] == B(z_REGID_T) && s[1].B? then
      match GetValue(vc, s[2..])
      case Bad => Bad
      case Good(v, rest) => Good(RegVal(s[1].b, v.0, v.1), rest)
    else
      match GetValue(vc, s)
      case Bad => Bad
      case Good(v, rest) => Good(RegVal(-1, v.0, v.1), rest)
  }

  function GetValue(vc: Values, s: Stream): (r: Res<(u64, Values)>)
    ensures r.Good? ==> |r.rest| < |s|
  {
    if s == [] || !s[0].B? then Bad
    else
      var tag := s[0].b;
      if z_VALUE_0_T <= tag < z_VALUE_0_T + 9 then Good((tag - z_VALUE_0_T, vc), s[1..])
      else if tag == z_VALUE_MINUS1_T then Good((TWO64 - 1, vc), s[1..])
      else if |s| == 1 then Bad
      else if tag == z_REGVAL_64_T && s[1].L? then Good((s[1].d, VcInsert(vc, s[1].d)), s[2..])
      else if tag == z_REGVAL_32_T && s[1].W? then Good((s[1].w, VcInsert(vc, s[1].w)), s[2..])
      else if tag == z_REGVAL_16_T && s[1].H? then Good((s[1].h, vc), s[2..])
      else if tag == z_REGVAL_8_T && s[1].B? then Good((s[1].b, vc), s[2..])
      else if tag == z_REGIDX_T && s[1].H? then Good((VcGet(vc, s[1].h), vc), s[2..])
      else Bad
  }

  // ------------------------------------------------------------ records other than instructions

  /** isIntRegCompressable */
  predicate Compressible(r: Rec)
    requires r.Regval?
  {
    r.type0 == RSTREG_INT_RT && r.type1 in {RSTREG_UNUSED_RT, RSTREG_CC_RT, RSTREG_INT_RT}
  }

  /** write_noninstr_rec: `rid` is the preceding instruction's rd, or -1 outside chunks. */
  function PutRec(s: Shared, r: Rec, rid: int): Stream {
    match r
    case Pavadiff(_, _, _, _, _, _) =>
      var i := PavaSearch(s.pava.entries, r, 0);
      if i == -1 then [Raw(r)] else [B(z0_PAVADIFF_T + i)]
    case Regval(_, _, id0, v0, t1, id1, v1) =>
      if !Compressible(r) then [Raw(r)]
      else if t1 == RSTREG_INT_RT then
        [B(z_REGPAIR_T)] + PutReg(s.vc, id0, v0, id0 == rid) + PutReg(VcAfter(s.vc, v0), id1, v1, id1 == rid)
      else
        PutReg(s.vc, id0, v0, id0 == rid) + (if t1 == RSTREG_CC_RT then [B(z_CCR_T), B(id1)] else [])
    case _ => [Raw(r)]
  }

  function AfterRec(s: Shared, r: Rec): Shared {
    match r
    case Pavadiff(_, _, _, _, _, _) =>
      var i := PavaSearch(s.pava.entries, r, 0);
      s.(pava := if i == -1 then PavaWrite(s.pava, r) else PavaTouch(s.pava, i))
    case Regval(_, _, _, v0, t1, _, v1) =>
      if !Compressible(r) then s
      else
        var vc := VcAfter(s.vc, v0);
        s.(vc := if t1 == RSTREG_INT_RT then VcAfter(vc, v1) else vc)
    case _ => s
  }

  datatype GotRec = GotRec(rec: Rec, st: Shared)

  function IdOr255(id: int): byte
    requires -1 <= id < 256
  {
    if id == -1 then SENTINEL else id
  }

  /** read_noninstr_rec. A register not named in the stream comes out as the sentinel 255. */
  function GetRec(cfg: Config, st: Shared, s: Stream): (r: Res<GotRec>)
    ensures r.Good? ==> |r.rest| < |s|
  {
    if s == [] then Bad
    else
      var lead := Lead(s[0], cfg.bigEndian);
      if z0_PAVADIFF_T <= lead < z0_PAVADIFF_T + PAVA_SIZE then
        var i := lead - z0_PAVADIFF_T;
        if s[0].B? && st.pava.entries[i].Held?
        then Good(GotRec(st.pava.entries[i].rec, st.(pava := PavaTouch(st.pava, i))), s[1..]) else Bad
      else if lead == z_REGPAIR_T then
        if s[0].B? then GetPair(cfg, st, s[1..]) else Bad
      else if z_CCR_T <= lead <= z_REGPAIR_T then GetSingle(cfg, st, s)
      else if !s[0].Raw? then Bad
      else if s[0].rec.Pavadiff? then Good(GotRec(s[0].rec, st.(pava := PavaWrite(st.pava, s[0].rec))), s[1..])
      else Good(GotRec(s[0].rec, st), s[1..])
  }

  /** The index-0 part of decompressReg: a z_CCR_T byte after the value belongs to it. */
  function GetCcr(cfg: Config, s: Stream): (r: Res<int>)
    ensures r.Good? ==> |r.rest| <= |s| && -1 <= r.val < 256
  {
    if s != [] && Lead(s[0], cfg.bigEndian) == z_CCR_T then
      if |s| >= 2 && s[0].B? && s[1].B? then Good(s[1].b, s[2..]) else Bad
    else Good(-1, s)
  }

  function GetSingle(cfg: Config, st: Shared, s: Stream): (r: Res<GotRec>)
    ensures r.Good? ==> |r.rest| < |s|
  {
    match GetReg(st.vc, s)
    case Bad => Bad
    case Good(g, s1) =>
      match GetCcr(cfg, s1)
      case Bad => Bad
      case Good(cc, s2) =>
        var rec := if cc == -1 then Regval(true, RSTREG_INT_RT, IdOr255(g.id), g.v, RSTREG_UNUSED_RT, 0, 0)
                   else Regval(true, RSTREG_INT_RT, IdOr255(g.id), g.v, RSTREG_CC_RT, cc, 0);
        Good(GotRec(rec, st.(vc := g.vc)), s2)
  }

  function GetPair(cfg: Config, st: Shared, s: Stream): (r: Res<GotRec>)
    ensures r.Good? ==> |r.rest| < |s|
  {
    match GetReg(st.vc, s)
    case Bad => Bad
    case Good(g0, s1) =>
      match GetCcr(cfg, s1)
      case Bad => Bad
      case Good(_, s2) =>
        match GetReg(g0.vc, s2)
        case Bad => Bad
        case Good(g1, s3) =>
          Good(GotRec(Regval(true, RSTREG_INT_RT, IdOr255(g0.id), g0.v, RSTREG_INT_RT, IdOr255(g1.id), g1.v),
                      st.(vc := g1.vc)), s3)
  }

  // ------------------------------------------------------------ chunks

  /** An instruction and the other records that follow it in its chunk. */
  datatype Item = Item(instr: Rec, after: seq<Rec>)

  function Bit(b: bool): int { if b then 1 else 0 }

  /** The flags byte from its highest bit down, with bit 4 unused; its lowest bit says that
      other records follow. */
  function FlagsOf(x: Item): byte
    requires x.instr.Instr?
  {
    var i := x.instr;
    var high := 2 * (2 * Bit(i.notused) + Bit(i.eaValid)) + Bit(i.tr);
    2 * (2 * (2 * (2 * (2 * high) + Bit(i.pr)) + Bit(i.bt)) + Bit(i.an)) + Bit(x.after != [])
  }

  predicate AllInstr(items: seq<Item>) {
    forall k :: 0 <= k < |items| ==> items[k].instr.Instr?
  }

  function Words(items: seq<Item>): (w: seq<u32>)
    requires AllInstr(items)
    ensures |w| == |items|
  {
    if items == [] then [] else [items[0].instr.word] + Words(items[1..])
  }

  function Flags(items: seq<Item>): (f: seq<byte>)
    requires AllInstr(items)
    ensures |f| == |items|
  {
    if items == [] then [] else [FlagsOf(items[0])] + Flags(items[1..])
  }

  function Eas(items: seq<Item>): seq<u64>
    requires AllInstr(items)
  {
    if items == [] then []
    else (if CarryEa(items[0].instr.word, items[0].instr.eaValid) then [items[0].instr.ea] else []) + Eas(items[1..])
  }

  function Counts(items: seq<Item>): seq<byte>
    requires forall k :: 0 <= k < |items| ==> |items[k].after| < 256
  {
    if items == [] then []
    else (if items[0].after != [] then [|items[0].after|] else []) + Counts(items[1..])
  }

  /** The other records of a chunk, each with the rd of the instruction before it. */
  datatype Follower = Follower(rec: Rec, rid: byte)

  function Tagged(rs: seq<Rec>, rid: byte): (f: seq<Follower>)
    ensures |f| == |rs|
  {
    seq(|rs|, i requires 0 <= i < |rs| => Follower(rs[i], rid))
  }

  function Followers(items: seq<Item>): seq<Follower>
    requires AllInstr(items)
  {
    if items == [] then [] else Tagged(items[0].after, Rd(items[0].instr.word)) + Followers(items[1..])
  }

  function PutRecs(s: Shared, fs: seq<Follower>): Stream
    decreases |fs|
  {
    if fs == [] then [] else PutRec(s, fs[0].rec, fs[0].rid) + PutRecs(AfterRec(s, fs[0].rec), fs[1..])
  }

  function AfterRecs(s: Shared, fs: seq<Follower>): Shared
    decreases |fs|
  {
    if fs == [] then s else AfterRecs(AfterRec(s, fs[0].rec), fs[1..])
  }

  function Sum(x: seq<int>): int {
    if x == [] then 0 else x[0] + Sum(x[1..])
  }

  function RTypes(rs: seq<Rec>): (t: seq<int>)
    ensures |t| == |rs|
  {
    seq(|rs|, i requires 0 <= i < |rs| => RType(rs[i]))
  }

  /** Word and flags are added in 32 bits before they enter the 64-bit sum. */
  function PairSum(words: seq<u32>, flags: seq<byte>): int
    requires |words| == |flags|
  {
    if words == [] then 0 else (words[0] + flags[0]) % 0x1_0000_0000 + PairSum(words[1..], flags[1..])
  }

  /** compute_checksum64 */
  function Checksum(rtype: byte, pc: u64, words: seq<u32>, flags: seq<byte>, eas: seq<u64>,
                    recs: seq<Rec>, counts: seq<byte>): int
    requires |words| == |flags|
  {
    rtype + |words| + pc + PairSum(words, flags) + Sum(eas) + Sum(RTypes(recs)) + Sum(counts)
  }

  function RecsOf(fs: seq<Follower>): (rs: seq<Rec>)
    ensures |rs| == |fs|
  {
    seq(|fs|, i requires 0 <= i < |fs| => fs[i].rec)
  }

  /** A chunk is stored only when its first pc is not 0. */
  predicate WfItems(items: seq<Item>) {
    && 0 < |items| < MAX_CHUNKSIZE && AllInstr(items)
    && (forall k :: 0 <= k < |items| ==> |items[k].after| < 256)
    && (forall k :: 0 < k < |items| ==> items[k].instr.pc == Wrap64(items[0].instr.pc + 4 * k))
  }

  function HitWay(s: Shared, items: seq<Item>): (i: int)
    requires WfItems(items)
    ensures i == -1 || (0 <= i < ASSOC && |s.table[HashOf(items[0].instr.pc)].ways[i].words| >= |items|)
  {
    var pc := items[0].instr.pc;
    SearchWords(s.table[HashOf(pc)], pc, Words(items))
  }

  /** write_chunk / write_loop_chunk up to the other records, in front of `rest`. */
  function ChunkHead(s: Shared, items: seq<Item>, rest: Stream): Stream
    requires WfItems(items)
  {
    var pc, i := items[0].instr.pc, HitWay(s, items);
    if i == -1 then
      [C(z_INSTR_T, |items|, pc)]
        + (Ws(Words(items)) + (Bs(Flags(items)) + (Ls(Eas(items)) + (Bs(Counts(items)) + rest))))
    else
      [C(zL_INSTR_T, |items|, pc)]
      + (Bs(Flags(items)) + (PutEas(Eas(items), s.table[HashOf(pc)].ways[i].eaBuf, 0) + (Bs(Counts(items)) + rest)))
  }

  function TableAfter(s: Shared, items: seq<Item>): Table
    requires WfItems(items)
  {
    var pc, i := items[0].instr.pc, HitWay(s, items);
    var set4 := s.table[HashOf(pc)];
    s.table[HashOf(pc) := if i == -1 then SetWrite(set4, pc, Words(items), Eas(items))
      else SetUpdate(set4, i, Eas(items))]
  }

  function ChunkSum(s: Shared, items: seq<Item>): u64
    requires WfItems(items)
  {
    var rtype := if HitWay(s, items) == -1 then z_INSTR_T else zL_INSTR_T;
    Wrap64(s.chksum + Checksum(rtype, items[0].instr.pc, Words(items), Flags(items), Eas(items),
                               RecsOf(Followers(items)), Counts(items)))
  }

  predicate SumDue(cfg: Config, chunks: nat) {
    cfg.freq != 0 && (chunks + 1) % cfg.freq == 0
  }

  /** The checksum word that ends every freq-th chunk. */
  function SumUnits(cfg: Config, chunks: nat, sum: u64): Stream {
    if SumDue(cfg, chunks) then [L(sum)] else []
  }

  function AfterSum(cfg: Config, s: Shared, sum: u64): Shared {
    if cfg.freq == 0 then s
    else s.(chksum := if SumDue(cfg, s.chunks) then 0 else sum, chunks := s.chunks + 1)
  }

  /** zip_chunk, once the chunk has been read, in front of `rest`: nothing at all is written
      for pc 0. */
  function PutChunk(cfg: Config, s: Shared, items: seq<Item>, rest: Stream): Stream
    requires WfItems(items)
  {
    if items[0].instr.pc == 0 then rest
    else ChunkHead(s, items, PutRecs(s, Followers(items)) + (SumUnits(cfg, s.chunks, ChunkSum(s, items)) + rest))
  }

  function AfterChunk(cfg: Config, s: Shared, items: seq<Item>): Shared
    requires WfItems(items)
  {
    if items[0].instr.pc == 0 then s
    else AfterSum(cfg, AfterRecs(s, Followers(items)).(table := TableAfter(s, items)), ChunkSum(s, items))
  }

  // ------------------------------------------------------------ reading chunks

  /** get_flags: bit `k`. */
  predicate FlagBit(f: nat, k: nat)
    decreases k, f
  {
    if k == 0 then f % 2 == 1 else FlagBit(f / 2, k - 1)
  }

  /** find_num_ea */
  function NumEa(words: seq<u32>, flags: seq<byte>): nat
    requires |words| == |flags|
  {
    if words == [] then 0
    else (if CarryEa(words[0], FlagBit(flags[0], 6)) then 1 else 0) + NumEa(words[1..], flags[1..])
  }

  /** find_num_noninstr_count */
  function NumCounts(flags: seq<byte>): nat {
    if flags == [] then 0 else (if FlagBit(flags[0], 0) then 1 else 0) + NumCounts(flags[1..])
  }

  /** find_num_noninstr */
  function Total(counts: seq<byte>): nat {
    if counts == [] then 0 else counts[0] + Total(counts[1..])
  }

  datatype GotRecs = GotRecs(recs: seq<Rec>, st: Shared)

  function GetRecs(cfg: Config, st: Shared, n: nat, s: Stream): (r: Res<GotRecs>)
    ensures r.Good? ==> |r.val.recs| == n && |r.rest| <= |s|
    decreases n
  {
    if n == 0 then Good(GotRecs([], st), s)
    else
      match GetRec(cfg, st, s)
      case Bad => Bad
      case Good(g, s1) =>
        match GetRecs(cfg, g.st, n - 1, s1)
        case Bad => Bad
        case Good(gs, s2) => Good(GotRecs([g.rec] + gs.recs, gs.st), s2)
  }

  /** The instruction record that write_chunk rebuilds. */
  function RebuildInstr(f: byte, w: u32, pc: u64, carried: u64, am: bool): Rec {
    var eaValid, bt, an := FlagBit(f, 6), FlagBit(f, 2), FlagBit(f, 1);
    Instr(false, eaValid, FlagBit(f, 5), false, FlagBit(f, 3), bt, an, w, pc,
          if CarryEa(w, eaValid) then carried else DerivedEa(w, pc, an, bt, am))
  }

  /** Replace the sentinel by the last instruction's destination register. */
  function FixId(r: Rec, rd: byte): Rec {
    if r.Regval? then
      r.(id0 := if r.id0 == SENTINEL then rd else r.id0, id1 := if r.id1 == SENTINEL then rd else r.id1)
    else r
  }

  function FixIds(rs: seq<Rec>, rd: byte): (f: seq<Rec>)
    ensures |f| == |rs|
  {
    seq(|rs|, i requires 0 <= i < |rs| => FixId(rs[i], rd))
  }

  /** PSTATE.AM after a record. */
  function AmAfter(am: bool, r: Rec): bool {
    if r.Preg? then AddressMask(r.pstate) else am
  }

  function AmAfterAll(am: bool, rs: seq<Rec>): bool
    decreases |rs|
  {
    if rs == [] then am else AmAfterAll(AmAfter(am, rs[0]), rs[1..])
  }

  /** write_chunk of the decompressor. */
  function Rebuild(words: seq<u32>, flags: seq<byte>, eas: seq<u64>, counts: seq<byte>, recs: seq<Rec>, pc: u64,
                   am: bool): seq<Rec>
    requires |flags| == |words| && |eas| == NumEa(words, flags)
    requires |counts| == NumCounts(flags) && |recs| == Total(counts)
    decreases |words|
  {
    if words == [] then []
    else
      var carry := CarryEa(words[0], FlagBit(flags[0], 6));
      var instr := RebuildInstr(flags[0], words[0], pc, if carry then eas[0] else 0, am);
      var n := if FlagBit(flags[0], 0) then counts[0] else 0;
      var run := FixIds(recs[..n], Rd(words[0]));
      [instr] + run
      + Rebuild(words[1..], flags[1..], if carry then eas[1..] else eas,
                if FlagBit(flags[0], 0) then counts[1..] else counts, recs[n..], Wrap64(pc + 4), AmAfterAll(am, run))
  }

  datatype Head = Head(loop: bool, pc: u64, words: seq<u32>, flags: seq<byte>, eas: seq<u64>, counts: seq<byte>,
    table: Table)

  predicate WfHead(h: Head) {
    |h.words| == |h.flags| && |h.eas| == NumEa(h.words, h.flags) && |h.counts| == NumCounts(h.flags)
  }

  /** unzip_chunk up to the other records; a chunk of no instructions would break the table. */
  function GetHead(st: Shared, hd: Unit, s: Stream): (r: Res<Head>)
    requires hd.C?
    ensures r.Good? ==> |r.rest| <= |s| && WfHead(r.val)
  {
    if hd.n == 0 then Bad
    else if hd.rtype == z_INSTR_T then
      match ReadWs(hd.n, s)
      case Bad => Bad
      case Good(words, s1) => GetFlags(st, false, -1, hd.pc, words, s1)
    else if hd.rtype == zL_INSTR_T then
      var set4 := st.table[HashOf(hd.pc)];
      var i := Search(set4, hd.pc, hd.n);
      if i == -1 then Bad else GetFlags(st, true, i, hd.pc, set4.ways[i].words[..hd.n], s)
    else Bad
  }

  function GetFlags(st: Shared, loop: bool, way: int, pc: u64, words: seq<u32>, s: Stream): (r: Res<Head>)
    requires loop ==> 0 <= way < ASSOC
    ensures r.Good? ==> |r.rest| <= |s| && WfHead(r.val)
  {
    match ReadBs(|words|, s)
    case Bad => Bad
    case Good(flags, s1) =>
      var ea := if loop then GetEas(NumEa(words, flags), st.table[HashOf(pc)].ways[way].eaBuf, 0, s1)
        else ReadLs(NumEa(words, flags), s1);
      match ea
      case Bad => Bad
      case Good(eas, s2) =>
        match ReadBs(NumCounts(flags), s2)
        case Bad => Bad
        case Good(counts, s3) =>
          Good(Head(loop, pc, words, flags, eas, counts, NewTable(st.table, loop, way, pc, words, eas)), s3)
  }

  function NewTable(table: Table, loop: bool, way: int, pc: u64, words: seq<u32>, eas: seq<u64>): Table
    requires loop ==> 0 <= way < ASSOC
  {
    var h := HashOf(pc);
    table[h := if loop then SetUpdate(table[h], way, eas) else SetWrite(table[h], pc, words, eas)]
  }

  /** The checksum test at the end of a chunk. */
  function CheckSum(cfg: Config, st: Shared, sum: u64, s: Stream): (r: Res<Shared>)
    ensures r.Good? ==> |r.rest| <= |s|
  {
    if SumDue(cfg, st.chunks) then
      if s != [] && s[0] == L(sum) then Good(AfterSum(cfg, st, sum), s[1..]) else Bad
    else Good(AfterSum(cfg, st, sum), s)
  }

  function SumOf(chksum: u64, h: Head, recs: seq<Rec>): u64
    requires WfHead(h)
  {
    Wrap64(chksum + Checksum(if h.loop then zL_INSTR_T else z_INSTR_T, h.pc, h.words, h.flags, h.eas, recs, h.counts))
  }

  /** The end of unzip_chunk, once the other records have been read. */
  function FinishChunk(cfg: Config, chksum: u64, am: bool, h: Head, g: Res<GotRecs>): (r: Res<GotRecs>)
    requires WfHead(h) && (g.Good? ==> |g.val.recs| == Total(h.counts))
    ensures r.Good? ==> g.Good? && |r.rest| <= |g.rest|
  {
    match g
    case Bad => Bad
    case Good(got, s) =>
      match CheckSum(cfg, got.st.(table := h.table), SumOf(chksum, h, got.recs), s)
      case Bad => Bad
      case Good(st, s') => Good(GotRecs(Rebuild(h.words, h.flags, h.eas, h.counts, got.recs, h.pc, am), st), s')
  }

  /** unzip_chunk after its header. */
  function GetChunk(cfg: Config, st: Shared, am: bool, hd: Unit, s: Stream): (r: Res<GotRecs>)
    requires hd.C?
    ensures r.Good? ==> |r.rest| <= |s|
  {
    match GetHead(st, hd, s)
    case Bad => Bad
    case Good(h, s1) => FinishChunk(cfg, st.chksum, am, h, GetRecs(cfg, st, Total(h.counts), s1))
  }

  // ------------------------------------------------------------ buffers

  /** What one call of zip_chunk finds: a record outside chunks, or a chunk. */
  datatype Seg = Lone(rec: Rec) | Run(items: seq<Item>)

  predicate WfSeg(g: Seg) {
    match g
    case Lone(rec) => !rec.Instr?
    case Run(items) => WfItems(items)
  }

  function PutSeg(cfg: Config, s: Shared, g: Seg, rest: Stream): Stream
    requires WfSeg(g)
  {
    match g
    case Lone(rec) => PutRec(s, rec, -1) + rest
    case Run(items) => PutChunk(cfg, s, items, rest)
  }

  function AfterSeg(cfg: Config, s: Shared, g: Seg): Shared
    requires WfSeg(g)
  {
    match g
    case Lone(rec) => AfterRec(s, rec)
    case Run(items) => AfterChunk(cfg, s, items)
  }

  predicate WfSegs(gs: seq<Seg>) {
    forall i :: 0 <= i < |gs| ==> WfSeg(gs[i])
  }

  /** rstz_compress of a buffer cut into segments, with the footer byte, in front of `rest`. */
  function PutBuffer(cfg: Config, s: Shared, gs: seq<Seg>, rest: Stream): Stream
    requires WfSegs(gs)
    decreases |gs|
  {
    if gs == [] then [B(z_FOOTER_T)] + rest
    else PutSeg(cfg, s, gs[0], PutBuffer(cfg, AfterSeg(cfg, s, gs[0]), gs[1..], rest))
  }

  function AfterBuffer(cfg: Config, s: Shared, gs: seq<Seg>): Shared
    requires WfSegs(gs)
    decreases |gs|
  {
    if gs == [] then s else AfterBuffer(cfg, AfterSeg(cfg, s, gs[0]), gs[1..])
  }

  datatype GotBuffer = GotBuffer(recs: seq<Rec>, st: Shared, am: bool)

  /** rstz_decompress up to and including the footer. */
  function GetBuffer(cfg: Config, st: Shared, am: bool, s: Stream): (r: Res<GotBuffer>)
    ensures r.Good? ==> |r.rest| < |s|
    decreases |s|, 1
  {
    if s == [] then Bad
    else
      var lead := Lead(s[0], cfg.bigEndian);
      if lead == z_FOOTER_T then Good(GotBuffer([], st, am), s[1..])
      else if lead == z_INSTR_T || lead == zL_INSTR_T then
        if !s[0].C? then Bad
        else
          AfterGot(cfg, am, GetChunk(cfg, st, am, s[0], s[1..]), |s|)
      else
        match GetRec(cfg, st, s)
        case Bad => Bad
        case Good(g, s1) => Resume([g.rec], GetBuffer(cfg, g.st, AmAfter(am, g.rec), s1))
  }

  /** The rest of the buffer after a chunk; `bound` exceeds what is left of the stream. */
  function AfterGot(cfg: Config, am: bool, got: Res<GotRecs>, bound: nat): (r: Res<GotBuffer>)
    requires got.Good? ==> |got.rest| < bound
    ensures r.Good? ==> |r.rest| < bound
    decreases bound, 0
  {
    match got
    case Bad => Bad
    case Good(g, s1) => Resume(g.recs, GetBuffer(cfg, g.st, AmAfterAll(am, g.recs), s1))
  }

  function Resume(recs: seq<Rec>, r: Res<GotBuffer>): (r': Res<GotBuffer>)
    ensures r'.Good? <==> r.Good?
    ensures r.Good? ==> r'.rest == r.rest && r'.val == GotBuffer(recs + r.val.recs, r.val.st, r.val.am)
  {
    match r
    case Bad => Bad
    case Good(g, rest) => Good(GotBuffer(recs + g.recs, g.st, g.am), rest)
  }
}
