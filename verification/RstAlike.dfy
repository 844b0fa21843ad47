/** Records that come back up to the address mask: the decompressor works out addresses with the PSTATE.AM
    that it has decoded, which need not be the one of the trace once a record has been lost. */
module RstAlike {
  import opened Basics
  import opened RstTypes
  import opened RstCodec
  import opened RstRoundTrip

  // ------------------------------------------------------------ right under some mask

  /** `b` is what comes back for `a` when the decompressor's mask is one or the other. */
  ghost predicate RecLike(a: Rec, b: Rec) {
    RecEq(a, b, false) || RecEq(a, b, true)
  }

  ghost predicate TraceLike(a: seq<Rec>, b: seq<Rec>) {
    |a| == |b| && forall i :: 0 <= i < |a| ==> RecLike(a[i], b[i])
  }

  lemma {:induction false} EqIsLike(a: seq<Rec>, b: seq<Rec>, am: bool)
    requires TraceEq(a, b, am)
    ensures TraceLike(a, b)
    decreases |a|
  {
    if a != [] {
      EqIsLike(a[1..], b[1..], AmAfter(am, a[0]));
      forall i | 0 <= i < |a|
        ensures RecLike(a[i], b[i])
      {
        if i > 0 { assert RecLike(a[1..][i - 1], b[1..][i - 1]); }
      }
    }
  }

  lemma {:induction false} LikeParts(a: seq<Rec>, b: seq<Rec>, a': seq<Rec>, b': seq<Rec>)
    requires |a| == |b| && TraceLike(a + a', b + b')
    ensures TraceLike(a, b) && TraceLike(a', b')
  {
    forall i | 0 <= i < |a|
      ensures RecLike(a[i], b[i])
    {
      assert RecLike((a + a')[i], (b + b')[i]);
    }
    forall i | 0 <= i < |a'|
      ensures RecLike(a'[i], b'[i])
    {
      assert RecLike((a + a')[|a| + i], (b + b')[|a| + i]);
    }
  }

  /** Under either mask a sentinel is not restored. */
  lemma {:induction false} RunLike(rs: seq<Rec>, coded: seq<Rec>, rd: byte)
    requires rd < 32 && CodedAll(Tagged(rs, rd), coded) && forall i :: 0 <= i < |rs| ==> !rs[i].Instr?
    requires TraceLike(rs, FixIds(coded, rd))
    ensures NoneSentinel(rs)
  {
    forall i | 0 <= i < |rs|
      ensures NoSentinel(rs[i])
    {
      assert Tagged(rs, rd)[i] == Follower(rs[i], rd);
      assert RecLike(rs[i], FixIds(coded, rd)[i]);
      FixIdsAt(coded, rd, i);
      FixedRecEq(rs[i], coded[i], rd, false);
      FixedRecEq(rs[i], coded[i], rd, true);
    }
  }

  lemma {:induction false} FixIdsAt(coded: seq<Rec>, rd: byte, i: nat)
    requires i < |coded|
    ensures |FixIds(coded, rd)| == |coded| && FixIds(coded, rd)[i] == FixId(coded[i], rd)
  {
  }

  lemma {:induction false} RebuildLike(items: seq<Item>, recs: seq<Rec>, pc: u64, am: bool)
    requires AllInstr(items) && ShortRuns(items) && PcsFrom(items, pc)
    requires WfFollowers(Followers(items)) && CodedAll(Followers(items), recs)
    ensures NumEa(Words(items), Flags(items)) == |Eas(items)|
    ensures NumCounts(Flags(items)) == |Counts(items)| && Total(Counts(items)) == |recs|
    ensures var got := Rebuild(Words(items), Flags(items), Eas(items), Counts(items), recs, pc, am);
            TraceLike(FlatItems(items), got) ==> NoSentinels(items)
    decreases |items|
  {
    CountsAgree(items);
    if items != [] {
      var x, tail, n := items[0], items[1..], |items[0].after|;
      SplitCoded(items, recs);
      CountsAgree(tail);
      var run := FixIds(recs[..n], Rd(x.instr.word));
      var am1 := AmAfterAll(am, run);
      RebuildLike(tail, recs[n..], Wrap64(pc + 4), am1);
      RebuildCons(items, recs, pc, am);
      var rest := Rebuild(Words(tail), Flags(tail), Eas(tail), Counts(tail), recs[n..], Wrap64(pc + 4), am1);
      if TraceLike(FlatItems(items), [Rebuilt(x, am)] + run + rest) {
        ItemLike(x, recs[..n], Rebuilt(x, am), FlatItems(tail), rest);
      }
      NoSentinelsCons(items);
    }
  }

  lemma {:induction false} ItemLike(x: Item, coded: seq<Rec>, first: Rec, others: seq<Rec>, rest: seq<Rec>)
    requires x.instr.Instr? && CodedAll(Tagged(x.after, Rd(x.instr.word)), coded)
    requires forall i :: 0 <= i < |x.after| ==> !x.after[i].Instr?
    requires TraceLike([x.instr] + x.after + others, [first] + FixIds(coded, Rd(x.instr.word)) + rest)
    ensures NoneSentinel(x.after) && TraceLike(others, rest)
  {
    var run := FixIds(coded, Rd(x.instr.word));
    LikeParts([x.instr] + x.after, [first] + run, others, rest);
    LikeParts([x.instr], [first], x.after, run);
    RunLike(x.after, coded, Rd(x.instr.word));
  }

  // ------------------------------------------------------------ two masks

  /** The addresses that the two masks give for these records are the same. */
  predicate SameDerived(recs: seq<Rec>, am: bool, am': bool)
    decreases |recs|
  {
    recs == [] ||
    ((recs[0].Instr? ==> NormInstr(recs[0], am) == NormInstr(recs[0], am'))
     && SameDerived(recs[1..], AmAfter(am, recs[0]), AmAfter(am', recs[0])))
  }

  lemma {:induction false} SameMask(recs: seq<Rec>, am: bool)
    ensures SameDerived(recs, am, am)
    decreases |recs|
  {
    if recs != [] { SameMask(recs[1..], AmAfter(am, recs[0])); }
  }

  /** What is right for one mask is right for another exactly when the addresses are the same. */
  lemma {:induction false} OtherMask(a: seq<Rec>, b: seq<Rec>, am: bool, am': bool)
    requires TraceEq(a, b, am')
    ensures TraceEq(a, b, am) <==> SameDerived(a, am, am')
    decreases |a|
  {
    if a != [] { OtherMask(a[1..], b[1..], AmAfter(am, a[0]), AmAfter(am', a[0])); }
  }

  // ------------------------------------------------------------ records up to the free fields

  /** A record without the field that is free. */
  function Canon(r: Rec): Rec {
    if r.Pavadiff? && !r.eaValid then r.(eaPaVa := 0) else r
  }

  function Canons(rs: seq<Rec>): (cs: seq<Rec>)
    ensures |cs| == |rs|
  {
    seq(|rs|, i requires 0 <= i < |rs| => Canon(rs[i]))
  }

  /** What has to come back for a record, under a mask. */
  function Expect(r: Rec, am: bool): Rec {
    match r
    case Instr(_, _, _, _, _, _, _, _, _, _) => NormInstr(r, am)
    case Regval(_, _, _, _, _, _, _) => if Compressible(r) then NormReg(r) else r
    case _ => Canon(r)
  }

  function Expected(rs: seq<Rec>, am: bool): (es: seq<Rec>)
    ensures |es| == |rs|
    decreases |rs|
  {
    if rs == [] then [] else [Expect(rs[0], am)] + Expected(rs[1..], AmAfter(am, rs[0]))
  }

  lemma RecIsExpected(a: Rec, b: Rec, am: bool)
    ensures RecEq(a, b, am) <==> Canon(b) == Expect(a, am)
  {
  }

  /** A trace has come back exactly when it is the expected one up to the free field. */
  lemma {:induction false} EqIsExpected(a: seq<Rec>, b: seq<Rec>, am: bool)
    ensures TraceEq(a, b, am) <==> Canons(b) == Expected(a, am)
    decreases |a|
  {
    if |a| == |b| && a != [] {
      var a1, b1, am1 := a[1..], b[1..], AmAfter(am, a[0]);
      RecIsExpected(a[0], b[0], am);
      EqIsExpected(a1, b1, am1);
      assert Canons(b) == [Canon(b[0])] + Canons(b1);
      var e := Expected(a, am);
      assert e[0] == Expect(a[0], am) && e[1..] == Expected(a1, am1);
      if Canons(b) == e { assert Canons(b1) == Canons(b)[1..]; }
    }
  }

  lemma CanonsAgain(b: seq<Rec>)
    ensures Canons(Canons(b)) == Canons(b)
  {
  }

  /** So the free field of what comes back does not matter. */
  lemma CanonsEq(a: seq<Rec>, b: seq<Rec>, am: bool)
    ensures TraceEq(a, b, am) <==> TraceEq(a, Canons(b), am)
  {
    EqIsExpected(a, b, am);
    EqIsExpected(a, Canons(b), am);
    CanonsAgain(b);
  }
}
