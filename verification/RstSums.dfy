/** What the checksum words of a compressed trace catch: any one field of a chunk that is not what was summed, and a
    difference in an earlier chunk of the same period. */
module RstSums {
  import opened Basics
  import opened RstTypes
  import opened EaCode
  import opened RstCodec

  // ------------------------------------------------------------ one change

  lemma {:induction false} SumUpdate(x: seq<int>, k: nat, v: int)
    requires k < |x|
    ensures Sum(x[k := v]) == Sum(x) - x[k] + v
  {
    if k > 0 {
      SumUpdate(x[1..], k - 1, v);
      assert x[k := v][1..] == x[1..][k - 1 := v];
    } else {
      assert x[k := v][1..] == x[1..];
    }
  }

  function Pair(w: u32, f: byte): int { (w + f) % 0x1_0000_0000 }

  lemma {:induction false} PairUpdate(words: seq<u32>, flags: seq<byte>, k: nat, w: u32, f: byte)
    requires k < |words| == |flags|
    ensures PairSum(words[k := w], flags[k := f]) == PairSum(words, flags) - Pair(words[k], flags[k]) + Pair(w, f)
  {
    var words', flags' := words[k := w], flags[k := f];
    if k > 0 {
      var j: nat := k - 1;
      PairUpdate(words[1..], flags[1..], j, w, f);
      assert words'[1..] == words[1..][j := w] && flags'[1..] == flags[1..][j := f];
    } else {
      assert words'[1..] == words[1..] && flags'[1..] == flags[1..];
    }
  }

  lemma Differ(x: int, y: int)
    requires x != y && -TWO64 < x - y < TWO64
    ensures Wrap64(x) != Wrap64(y)
  {
  }

  /** A changed address. */
  lemma DetectsAddress(before: u64, rtype: byte, pc: u64, words: seq<u32>, flags: seq<byte>, eas: seq<u64>,
                       recs: seq<Rec>, counts: seq<byte>, k: nat, ea: u64)
    requires |words| == |flags| && k < |eas| && ea != eas[k]
    ensures Wrap64(before + Checksum(rtype, pc, words, flags, eas[k := ea], recs, counts)) !=
            Wrap64(before + Checksum(rtype, pc, words, flags, eas, recs, counts))
  {
    SumUpdate(eas, k, ea);
    Differ(before + Checksum(rtype, pc, words, flags, eas[k := ea], recs, counts),
           before + Checksum(rtype, pc, words, flags, eas, recs, counts));
  }

  /** A changed instruction word. */
  lemma DetectsWord(before: u64, rtype: byte, pc: u64, words: seq<u32>, flags: seq<byte>, eas: seq<u64>,
                    recs: seq<Rec>, counts: seq<byte>, k: nat, w: u32)
    requires k < |words| == |flags| && w != words[k]
    ensures Wrap64(before + Checksum(rtype, pc, words[k := w], flags, eas, recs, counts)) !=
            Wrap64(before + Checksum(rtype, pc, words, flags, eas, recs, counts))
  {
    PairUpdate(words, flags, k, w, flags[k]);
    assert flags[k := flags[k]] == flags;
    assert Pair(w, flags[k]) != Pair(words[k], flags[k]);
    Differ(before + Checksum(rtype, pc, words[k := w], flags, eas, recs, counts),
           before + Checksum(rtype, pc, words, flags, eas, recs, counts));
  }

  /** A changed byte of flags. */
  lemma DetectsFlags(before: u64, rtype: byte, pc: u64, words: seq<u32>, flags: seq<byte>, eas: seq<u64>,
                     recs: seq<Rec>, counts: seq<byte>, k: nat, f: byte)
    requires k < |words| == |flags| && f != flags[k]
    ensures Wrap64(before + Checksum(rtype, pc, words, flags[k := f], eas, recs, counts)) !=
            Wrap64(before + Checksum(rtype, pc, words, flags, eas, recs, counts))
  {
    PairUpdate(words, flags, k, words[k], f);
    assert words[k := words[k]] == words;
    assert Pair(words[k], f) != Pair(words[k], flags[k]);
    Differ(before + Checksum(rtype, pc, words, flags[k := f], eas, recs, counts),
           before + Checksum(rtype, pc, words, flags, eas, recs, counts));
  }

  /** A record of another type. */
  lemma DetectsType(before: u64, rtype: byte, pc: u64, words: seq<u32>, flags: seq<byte>, eas: seq<u64>,
                    recs: seq<Rec>, counts: seq<byte>, k: nat, r: Rec)
    requires |words| == |flags| && k < |recs| && RType(r) != RType(recs[k])
    ensures Wrap64(before + Checksum(rtype, pc, words, flags, eas, recs[k := r], counts)) !=
            Wrap64(before + Checksum(rtype, pc, words, flags, eas, recs, counts))
  {
    SumUpdate(RTypes(recs), k, RType(r));
    assert RTypes(recs[k := r]) == RTypes(recs)[k := RType(r)];
    Differ(before + Checksum(rtype, pc, words, flags, eas, recs[k := r], counts),
           before + Checksum(rtype, pc, words, flags, eas, recs, counts));
  }

  /** A changed run length. */
  lemma DetectsCount(before: u64, rtype: byte, pc: u64, words: seq<u32>, flags: seq<byte>, eas: seq<u64>,
                     recs: seq<Rec>, counts: seq<byte>, k: nat, n: byte)
    requires |words| == |flags| && k < |counts| && n != counts[k]
    ensures Wrap64(before + Checksum(rtype, pc, words, flags, eas, recs, counts[k := n])) !=
            Wrap64(before + Checksum(rtype, pc, words, flags, eas, recs, counts))
  {
    SumUpdate(counts, k, n);
    Differ(before + Checksum(rtype, pc, words, flags, eas, recs, counts[k := n]),
           before + Checksum(rtype, pc, words, flags, eas, recs, counts));
  }

  /** Another kind of chunk, another pc, or another sum before it. */
  lemma DetectsHead(before: u64, before': u64, rtype: byte, rtype': byte, pc: u64, pc': u64, words: seq<u32>,
                    flags: seq<byte>, eas: seq<u64>, recs: seq<Rec>, counts: seq<byte>)
    requires |words| == |flags|
    requires (before' != before && rtype' == rtype && pc' == pc) || (before' == before && rtype' != rtype && pc' == pc)
      || (before' == before && rtype' == rtype && pc' != pc)
    ensures Wrap64(before' + Checksum(rtype', pc', words, flags, eas, recs, counts)) !=
            Wrap64(before + Checksum(rtype, pc, words, flags, eas, recs, counts))
  {
    Differ(before' + Checksum(rtype', pc', words, flags, eas, recs, counts),
           before + Checksum(rtype, pc, words, flags, eas, recs, counts));
  }

  /** The decompressor stops at a checksum word that is not its own sum. */
  lemma Caught(cfg: Config, st: Shared, sum: u64, own: u64, rest: Stream)
    requires SumDue(cfg, st.chunks)
    ensures CheckSum(cfg, st, own, SumUnits(cfg, st.chunks, sum) + rest).Good? <==> sum == own
  {
    assert (SumUnits(cfg, st.chunks, sum) + rest)[0] == L(sum);
  }

  // ------------------------------------------------------------ a whole period

  /** The chunks of a buffer that are written. */
  function Written(gs: seq<Seg>): nat
    requires WfSegs(gs)
  {
    if gs == [] then 0 else Written(gs[1..]) + (if gs[0].Run? && gs[0].items[0].instr.pc != 0 then 1 else 0)
  }

  lemma {:induction false} RecsIgnoreSum(s: Shared, c: u64, fs: seq<Follower>)
    ensures AfterRecs(s.(chksum := c), fs) == AfterRecs(s, fs).(chksum := c)
    ensures AfterRecs(s, fs).chksum == s.chksum && AfterRecs(s, fs).chunks == s.chunks
    decreases |fs|
  {
    if fs != [] { RecsIgnoreSum(AfterRec(s, fs[0].rec), c, fs[1..]); }
  }

  /** Where no checksum is due, a chunk keeps apart the sums that were different before it; where one is due, it writes
      different words for them and starts over. */
  lemma {:induction false} ChunkCarries(cfg: Config, s: Shared, c: u64, items: seq<Item>)
    requires WfItems(items) && c != s.chksum && items[0].instr.pc != 0 && cfg.freq != 0
    ensures ChunkSum(s.(chksum := c), items) != ChunkSum(s, items)
    ensures var t, t' := AfterChunk(cfg, s, items), AfterChunk(cfg, s.(chksum := c), items);
            && t' == t.(chksum := t'.chksum) && t.chunks == s.chunks + 1
            && (if SumDue(cfg, s.chunks) then t'.chksum == t.chksum == 0 else t'.chksum != t.chksum)
  {
    RecsIgnoreSum(s, c, Followers(items));
    assert HitWay(s.(chksum := c), items) == HitWay(s, items);
    var rtype := if HitWay(s, items) == -1 then z_INSTR_T else zL_INSTR_T;
    DetectsHead(s.chksum, c, rtype, rtype, items[0].instr.pc, items[0].instr.pc, Words(items), Flags(items), Eas(items),
                RecsOf(Followers(items)), Counts(items));
  }

  lemma {:induction false} LoneCarries(s: Shared, c: u64, r: Rec)
    ensures AfterRec(s.(chksum := c), r) == AfterRec(s, r).(chksum := c) && AfterRec(s, r).chksum == s.chksum
    ensures AfterRec(s, r).chunks == s.chunks
  {
  }

  /** A difference in the sum, from whichever chunk of a period, is still there when the period's checksum comes. */
  lemma {:induction false} CarriedToTheEnd(cfg: Config, s: Shared, c: u64, gs: seq<Seg>, due: nat)
    requires WfSegs(gs) && c != s.chksum && cfg.freq != 0
    requires s.chunks + Written(gs) <= due && SumDue(cfg, due) && forall k :: s.chunks <= k < due ==> !SumDue(cfg, k)
    ensures var t, t' := AfterBuffer(cfg, s, gs), AfterBuffer(cfg, s.(chksum := c), gs);
            t' == t.(chksum := t'.chksum) && t'.chksum != t.chksum && t.chunks == s.chunks + Written(gs)
    decreases |gs|
  {
    if gs != [] {
      var s1, s1' := AfterSeg(cfg, s, gs[0]), AfterSeg(cfg, s.(chksum := c), gs[0]);
      match gs[0] {
        case Lone(rec) => LoneCarries(s, c, rec);
        case Run(items) =>
          if items[0].instr.pc != 0 { ChunkCarries(cfg, s, c, items); }
      }
      CarriedToTheEnd(cfg, s1, s1'.chksum, gs[1..], due);
    }
  }

  predicate FromZero(cfg: Config, s: Shared)
    requires cfg.freq != 0
  {
    s.chunks % cfg.freq == 0 ==> s.chksum == 0
  }

  lemma {:induction false} SegStartsOver(cfg: Config, s: Shared, g: Seg)
    requires WfSeg(g) && cfg.freq != 0 && FromZero(cfg, s)
    ensures FromZero(cfg, AfterSeg(cfg, s, g))
  {
    match g {
      case Lone(rec) => LoneCarries(s, 0, rec);
      case Run(items) => RecsIgnoreSum(s, 0, Followers(items));
    }
  }

  /** In every reachable state: each period starts from a sum of 0. */
  lemma {:induction false} StartsOver(cfg: Config, s: Shared, gs: seq<Seg>)
    requires WfSegs(gs) && cfg.freq != 0 && FromZero(cfg, s)
    ensures FromZero(cfg, AfterBuffer(cfg, s, gs))
    decreases |gs|
  {
    if gs != [] {
      SegStartsOver(cfg, s, gs[0]);
      StartsOver(cfg, AfterSeg(cfg, s, gs[0]), gs[1..]);
    }
  }
}
