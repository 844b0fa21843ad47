/** Saving a cross-reference graph: ids are handed out along the buckets, then every symbol is written by id. */
module XrefSave {
  import opened Basics
  import opened XrefFile
  import opened XrefStore

  // ---------- the order of the ids ----------

  ghost function Flatten(bs: seq<seq<Sym>>): seq<Sym> {
    if bs == [] then [] else Flatten(bs[..|bs| - 1]) + bs[|bs| - 1]
  }

  lemma {:induction false} FlattenAt(bs: seq<seq<Sym>>, b: nat, j: nat)
    requires b < |bs| && j < |bs[b]|
    ensures |Flatten(bs[..b])| + j < |Flatten(bs)| && Flatten(bs)[|Flatten(bs[..b])| + j] == bs[b][j]
    decreases |bs|
  {
    if b < |bs| - 1 {
      FlattenAt(bs[..|bs| - 1], b, j);
      assert bs[..|bs| - 1][..b] == bs[..b];
    }
  }

  /** Chain `b` is the stretch of the order after the earlier chains. */
  lemma ChainIs(bs: seq<seq<Sym>>, b: nat)
    requires b < |bs|
    ensures var at := |Flatten(bs[..b])|;
      |Flatten(bs[..b + 1])| == at + |bs[b]| <= |Flatten(bs)| && Flatten(bs)[at..at + |bs[b]|] == bs[b]
  {
    assert bs[..b + 1][..b] == bs[..b];
    FlattenPrefix(bs, b + 1);
    var p := Flatten(bs[..b + 1]);
    assert p == Flatten(bs[..b]) + bs[b];
    assert Flatten(bs)[..|p|] == p;
  }

  lemma {:induction false} FlattenPrefix(bs: seq<seq<Sym>>, b: nat)
    requires b <= |bs|
    ensures Flatten(bs[..b]) <= Flatten(bs)
    decreases |bs|
  {
    if b == |bs| {
      assert bs[..b] == bs;
    } else {
      FlattenPrefix(bs[..|bs| - 1], b);
      assert bs[..|bs| - 1][..b] == bs[..b];
    }
  }

  lemma {:induction false} BucketDistinct(h: seq<Sym>, b: nat)
    requires Distinct(h)
    ensures Distinct(Bucket(h, b))
  {
    if h != [] {
      BucketDistinct(h[..|h| - 1], b);
      BucketMembers(h[..|h| - 1], b);
    }
  }

  lemma {:induction false} InBucket(h: seq<Sym>, s: Sym)
    requires s in h
    ensures s in Bucket(h, First(s.name))
  {
    if s != h[|h| - 1] { InBucket(h[..|h| - 1], s); }
  }

  lemma DistinctConcat(a: seq<Sym>, b: seq<Sym>, m: nat)
    requires Distinct(a) && Distinct(b)
    requires (forall s :: s in a ==> First(s.name) < m) && (forall s :: s in b ==> First(s.name) == m)
    ensures Distinct(a + b)
  {
    forall i, j | 0 <= i < j < |a + b| ensures (a + b)[i] != (a + b)[j] {
      if i < |a| <= j { assert a[i] in a && b[j - |a|] in b; }
    }
  }

  /** The first `m` buckets hold the symbols with a smaller first character, each once. */
  lemma {:induction false} FlattenBuckets(bs: seq<seq<Sym>>, h: seq<Sym>, m: nat)
    requires m <= |bs| && Distinct(h) && forall b :: 0 <= b < m ==> bs[b] == Bucket(h, b)
    ensures Distinct(Flatten(bs[..m]))
    ensures forall s :: s in Flatten(bs[..m]) ==> s in h && First(s.name) < m
    ensures forall s :: s in h && First(s.name) < m ==> s in Flatten(bs[..m])
    decreases m
  {
    if m > 0 {
      FlattenBuckets(bs, h, m - 1);
      assert bs[..m][..m - 1] == bs[..m - 1];
      BucketDistinct(h, m - 1);
      BucketMembers(h, m - 1);
      DistinctConcat(Flatten(bs[..m - 1]), Bucket(h, m - 1), m - 1);
      forall s | s in h && First(s.name) < m ensures s in Flatten(bs[..m]) {
        if First(s.name) == m - 1 { InBucket(h, s); }
      }
    }
  }

  /** The symbols in the order of the ids that saving gives them. */
  ghost function Order(x: Xref): seq<Sym>
    reads x
  {
    Flatten(x.allRefs)
  }

  /** Every symbol gets exactly one id. */
  lemma OrderIsAll(x: Xref)
    requires x.Valid()
    ensures Distinct(Order(x)) && forall s :: s in Order(x) <==> s in x.syms
  {
    FlattenBuckets(x.allRefs, x.history, 128);
    assert x.allRefs[..128] == x.allRefs;
    ElemsIn(x.history);
  }

  /** `s` was entered before `t`. */
  ghost predicate Older(h: seq<Sym>, s: Sym, t: Sym) {
    exists p: nat, q: nat :: p < q < |h| && h[p] == s && h[q] == t
  }

  lemma OlderMore(h: seq<Sym>, s: Sym, t: Sym)
    requires h != [] && Older(h[..|h| - 1], s, t)
    ensures Older(h, s, t)
  {
    var p: nat, q: nat :| p < q < |h| - 1 && h[..|h| - 1][p] == s && h[..|h| - 1][q] == t;
    assert h[p] == s && h[q] == t;
  }

  lemma {:induction false} BucketNewestFirst(h: seq<Sym>, b: nat, i: nat, j: nat)
    requires i < j < |Bucket(h, b)|
    ensures Older(h, Bucket(h, b)[j], Bucket(h, b)[i])
  {
    var n: nat, front := |h| - 1, h[..|h| - 1];
    if First(h[n].name) != b {
      BucketNewestFirst(front, b, i, j);
      OlderMore(h, Bucket(h, b)[j], Bucket(h, b)[i]);
    } else if i > 0 {
      BucketNewestFirst(front, b, i - 1, j - 1);
      OlderMore(h, Bucket(h, b)[j], Bucket(h, b)[i]);
    } else {
      BucketMembers(front, b);
      var s := Bucket(front, b)[j - 1];
      assert s in front;
      var p: nat :| p < |front| && front[p] == s;
      assert h[p] == Bucket(h, b)[j] && h[n] == Bucket(h, b)[i];
    }
  }

  /** Ids are in the order of first characters, empty names first, and from the newest entry to the oldest within
      one. */
  ghost predicate InOrder(h: seq<Sym>, s: Sym, t: Sym) {
    if s.name == [] then t.name != [] || Older(h, t, s)
    else t.name != [] && (s.name[0] < t.name[0] || (s.name[0] == t.name[0] && Older(h, t, s)))
  }

  lemma {:induction false} FlattenInOrder(bs: seq<seq<Sym>>, h: seq<Sym>, m: nat, i: nat, j: nat)
    requires m <= |bs| && Distinct(h) && forall b :: 0 <= b < m ==> bs[b] == Bucket(h, b)
    requires i < j < |Flatten(bs[..m])|
    ensures InOrder(h, Flatten(bs[..m])[i], Flatten(bs[..m])[j])
    decreases m
  {
    if m > 0 {
      var k := m - 1;
      assert bs[..m][..k] == bs[..k];
      var front := Flatten(bs[..k]);
      assert Flatten(bs[..m]) == front + bs[k];
      if j < |front| {
        FlattenInOrder(bs, h, k, i, j);
      } else {
        BucketMembers(h, k);
        var t := bs[k][j - |front|];
        assert t in bs[k];
        if i < |front| {
          FlattenBuckets(bs, h, k);
          assert front[i] in front;
        } else {
          BucketNewestFirst(h, k, i - |front|, j - |front|);
        }
      }
    }
  }

  lemma OrderIsSorted(x: Xref, i: nat, j: nat)
    requires x.Valid() && i < j < |Order(x)|
    ensures InOrder(x.history, Order(x)[i], Order(x)[j])
  {
    assert x.allRefs[..128] == x.allRefs;
    FlattenInOrder(x.allRefs, x.history, 128, i, j);
  }

  // ---------- assigning ids ----------

  ghost predicate Numbered(order: seq<Sym>, n: nat)
    reads set i | 0 <= i < |order| :: order[i]
  {
    n <= |order| && forall k :: 0 <= k < n ==> order[k].id == k
  }

  /** The two loops that number the buckets' chains. */
  method NumberSymbols(x: Xref) returns (wid: nat)
    requires x.Valid()
    modifies x.syms`id
    ensures x.Valid() && wid == |Order(x)| && Numbered(Order(x), wid)
  {
    OrderIsAll(x);
    ghost var order := Order(x);
    assert Within(order, x.syms);
    wid := 0;
    var b := 0;
    while b < 128
      invariant 0 <= b <= 128 && wid == |Flatten(x.allRefs[..b])| && Numbered(order, wid)
    {
      ChainIs(x.allRefs, b);
      wid := NumberChain(x.allRefs[b], wid, order, x.syms);
      b := b + 1;
    }
    assert x.allRefs[..b] == x.allRefs;
    x.LinksKeepValid();
  }

  method NumberChain(chain: seq<Sym>, first: nat, ghost order: seq<Sym>, ghost syms: set<Sym>) returns (wid: nat)
    requires Distinct(order) && Numbered(order, first) && Within(order, syms)
    requires first + |chain| <= |order| && order[first..first + |chain|] == chain
    modifies syms`id
    ensures wid == first + |chain| && Numbered(order, wid)
  {
    wid := first;
    var j := 0;
    while j < |chain|
      invariant 0 <= j <= |chain| && wid == first + j && Numbered(order, wid)
    {
      assert chain[j] == order[wid];
      chain[j].id := wid;
      wid := wid + 1;
      j := j + 1;
    }
  }

  method NumberFiles(x: Xref) returns (fid: nat)
    requires x.Valid()
    modifies set f | f in x.sources
    ensures x.Valid() && fid == |x.sources| && forall i :: 0 <= i < fid ==> x.sources[i].id == i
  {
    fid := 0;
    while fid < |x.sources|
      invariant 0 <= fid <= |x.sources|
      invariant forall i :: 0 <= i < fid ==> x.sources[i].id == i
    {
      x.sources[fid].id := fid;
      fid := fid + 1;
    }
  }

  // ---------- the records ----------

  function FlagWord(f: Flags): u32 {
    (if f.definition then 1 else 0) + (if f.forward then 2 else 0)
    + (if f.hidden then 4 else 0) + (if f.str then 8 else 0)
  }

  /** `flags & bit` for each of the four bits of a loaded word. */
  function FlagsOf(w: u32): Flags { Flags(w % 2 == 1, w / 2 % 2 == 1, w / 4 % 2 == 1, w / 8 % 2 == 1) }

  lemma FlagRoundTrip(f: Flags)
    ensures FlagsOf(FlagWord(f)) == f
  {
  }

  /** `ids` are the positions of `syms` in the order of saving. */
  ghost predicate Names(ids: seq<u32>, order: seq<Sym>, syms: seq<Sym>) {
    |ids| == |syms| && forall j :: 0 <= j < |ids| ==> ids[j] < |order| && order[ids[j]] == syms[j]
  }

  /** `r` records symbol `k` of the graph. */
  ghost predicate Describes(r: SymRec, k: nat, order: seq<Sym>, sources: seq<SourceFile>)
    requires k < |order|
    reads order[k]
  {
    var s := order[k];
    && r.id == k && r.flags == FlagWord(s.flags) && r.name == s.name && r.line == s.line
    && r.fid < |sources| && sources[r.fid] == s.file
    && Names(r.calls, order, s.calls) && Names(r.calledBy, order, s.calledBy)
  }

  ghost predicate LinksIn(syms: seq<Sym>, order: seq<Sym>) {
    forall i :: 0 <= i < |syms| ==> syms[i] in order
  }

  /** The graph once ids have been given out: numbered, and closed under links. */
  ghost predicate Ready(order: seq<Sym>, sources: seq<SourceFile>)
    reads (set i | 0 <= i < |order| :: order[i]), (set i | 0 <= i < |sources| :: sources[i])
  {
    && |order| < 0x8000_0000 && |sources| < 0x8000_0000
    && Numbered(order, |order|) && (forall i :: 0 <= i < |sources| ==> sources[i].id == i)
    && (forall k :: 0 <= k < |order| ==>
          LinksIn(order[k].calls, order) && LinksIn(order[k].calledBy, order) && order[k].file in sources)
  }

  lemma ReadyFrom(x: Xref, order: seq<Sym>)
    requires x.Valid() && order == Order(x) && |order| < 0x8000_0000 && |x.sources| < 0x8000_0000
    requires Numbered(order, |order|) && forall i :: 0 <= i < |x.sources| ==> x.sources[i].id == i
    ensures Ready(order, x.sources)
  {
    OrderIsAll(x);
    forall k | 0 <= k < |order|
      ensures LinksIn(order[k].calls, order) && LinksIn(order[k].calledBy, order) && order[k].file in x.sources
    {
      assert order[k] in order;
    }
  }

  /** The ids of a reference buffer, one `write_4bytes` each. */
  method IdsOf(syms: seq<Sym>, ghost order: seq<Sym>) returns (ids: seq<u32>)
    requires Numbered(order, |order|) && |order| < 0x8000_0000 && LinksIn(syms, order)
    ensures Names(ids, order, syms)
  {
    ids := [];
    while |ids| < |syms|
      invariant |ids| <= |syms| && Names(ids, order, syms[..|ids|])
      decreases |syms| - |ids|
    {
      var s := syms[|ids|];
      assert exists k :: 0 <= k < |order| && order[k] == s;
      ids := ids + [s.id];
    }
  }

  /** The fields of one symbol, as they are written. */
  method Record(s: Sym, ghost k: nat, ghost order: seq<Sym>, ghost sources: seq<SourceFile>) returns (r: SymRec)
    requires Ready(order, sources) && k < |order| && order[k] == s
    ensures Describes(r, k, order, sources)
  {
    assert exists i :: 0 <= i < |sources| && sources[i] == s.file;
    var calls := IdsOf(s.calls, order);
    var calledBy := IdsOf(s.calledBy, order);
    r := SymRec(s.id, FlagWord(s.flags), s.name, s.file.id, s.line, calls, calledBy);
  }

  // ---------- writing the file ----------

  ghost function NamesOf(fs: seq<SourceFile>): (ns: seq<Name>)
    ensures |ns| == |fs|
  {
    if fs == [] then [] else NamesOf(fs[..|fs| - 1]) + [fs[|fs| - 1].name]
  }

  /** What has been written so far: the pieces, and where each of them starts. */
  ghost predicate Written(out: seq<byte>, offsets: seq<nat>, ps: seq<seq<byte>>, base: nat) {
    out == Cat(ps) && offsets == Offsets(ps, base)
  }

  lemma {:induction false} WrittenMore(ps: seq<seq<byte>>, p: seq<byte>, base: nat)
    ensures Cat(ps + [p]) == Cat(ps) + p
    ensures Offsets(ps + [p], base) == Offsets(ps, base) + [base + |Cat(ps)|]
  {
    if ps == [] {
      assert [p][1..] == [];
      assert Cat([p]) == p + Cat([]);
    } else {
      TailSnoc(ps, p);
      WrittenMore(ps[1..], p, base + |ps[0]|);
      AppendAssoc(ps[0], Cat(ps[1..]), p);
    }
  }

  lemma NamePiece(fs: seq<Name>, f: Name)
    ensures Pieces(fs + [f], []) == Pieces(fs, []) + [PutName(f, [])]
  {
  }

  lemma SymPiece(fs: seq<Name>, rs: seq<SymRec>, r: SymRec)
    ensures Pieces(fs, rs + [r]) == Pieces(fs, rs) + [PutSym(r, [])]
  {
  }

  method WriteNames(sources: seq<SourceFile>, base: nat) returns (out: seq<byte>, findex: seq<nat>)
    ensures Written(out, findex, Pieces(NamesOf(sources), []), base)
  {
    out, findex := [], [];
    var i := 0;
    while i < |sources|
      invariant 0 <= i <= |sources| && Written(out, findex, Pieces(NamesOf(sources[..i]), []), base)
    {
      ghost var fs := NamesOf(sources[..i]);
      var name := sources[i].name;
      NamePiece(fs, name);
      assert sources[..i + 1][..i] == sources[..i];
      WrittenMore(Pieces(fs, []), PutName(name, []), base);
      findex := findex + [base + |out|];
      out := out + PutName(name, []);
      i := i + 1;
    }
    assert sources[..i] == sources;
  }

  /** `recs` describe the first symbols of the order. */
  ghost predicate Recorded(recs: seq<SymRec>, order: seq<Sym>, sources: seq<SourceFile>)
    reads set i | 0 <= i < |order| :: order[i]
  {
    |recs| <= |order| && forall k :: 0 <= k < |recs| ==> Describes(recs[k], k, order, sources)
  }

  lemma RecordedMore(recs: seq<SymRec>, r: SymRec, order: seq<Sym>, sources: seq<SourceFile>)
    requires Recorded(recs, order, sources) && |recs| < |order| && Describes(r, |recs|, order, sources)
    ensures Recorded(recs + [r], order, sources)
  {
  }

  lemma WrittenSym(fs: seq<Name>, recs: seq<SymRec>, r: SymRec, base: nat)
    ensures var ps, ps' := Pieces(fs, recs), Pieces(fs, recs + [r]);
      Cat(ps') == Cat(ps) + PutSym(r, []) && Offsets(ps', base) == Offsets(ps, base) + [base + |Cat(ps)|]
  {
    SymPiece(fs, recs, r);
    WrittenMore(Pieces(fs, recs), PutSym(r, []), base);
  }

  method WriteSym(r: SymRec, base: nat, out0: seq<byte>, index0: seq<nat>, ghost fs: seq<Name>, ghost recs: seq<SymRec>)
    returns (out: seq<byte>, index: seq<nat>)
    requires Written(out0, index0, Pieces(fs, recs), base)
    ensures Written(out, index, Pieces(fs, recs + [r]), base)
  {
    WrittenSym(fs, recs, r, base);
    var at: nat := base + |out0|;
    index := index0 + [at];
    out := out0 + PutSym(r, []);
  }

  /** One chain of symbols, appended to what has been written. */
  method WriteChain(chain: seq<Sym>, base: nat, out0: seq<byte>, index0: seq<nat>,
                    ghost recs0: seq<SymRec>, ghost order: seq<Sym>, ghost sources: seq<SourceFile>)
    returns (out: seq<byte>, index: seq<nat>, ghost recs: seq<SymRec>)
    requires Ready(order, sources) && Recorded(recs0, order, sources)
    requires |recs0| + |chain| <= |order| && order[|recs0|..|recs0| + |chain|] == chain
    requires Written(out0, index0, Pieces(NamesOf(sources), recs0), base)
    ensures |recs| == |recs0| + |chain| && Recorded(recs, order, sources)
    ensures Written(out, index, Pieces(NamesOf(sources), recs), base)
  {
    out, index, recs := out0, index0, recs0;
    var j := 0;
    while j < |chain|
      invariant 0 <= j <= |chain| && |recs| == |recs0| + j && Recorded(recs, order, sources)
      invariant Written(out, index, Pieces(NamesOf(sources), recs), base)
    {
      assert chain[j] == order[|recs|];
      var r := Record(chain[j], |recs|, order, sources);
      RecordedMore(recs, r, order, sources);
      out, index := WriteSym(r, base, out, index, NamesOf(sources), recs);
      recs := recs + [r];
      j := j + 1;
    }
  }

  /** `xref_save_file`: the file is the image of records that describe every symbol, in the order of the ids. */
  method Save(x: Xref) returns (file: seq<byte>, ghost recs: seq<SymRec>)
    requires x.Valid() && |Order(x)| < 0x8000_0000 && |x.sources| < 0x8000_0000
    modifies x.syms`id, set f | f in x.sources
    ensures x.Valid() && |recs| == |Order(x)| && Recorded(recs, Order(x), x.sources)
    ensures file == Image(NamesOf(x.sources), recs)
  {
    var fid := NumberFiles(x);
    var wid := NumberSymbols(x);
    ReadyFrom(x, Order(x));
    file, recs := WriteFile(x.allRefs, x.sources, fid, wid, Order(x));
  }

  method WriteFile(allRefs: seq<seq<Sym>>, sources: seq<SourceFile>, fid: nat, wid: nat, ghost order: seq<Sym>)
    returns (file: seq<byte>, ghost recs: seq<SymRec>)
    requires Ready(order, sources) && order == Flatten(allRefs) && wid == |order| && fid == |sources|
    ensures |recs| == |order| && Recorded(recs, order, sources)
    ensures file == Image(NamesOf(sources), recs)
  {
    var base := 4 * (3 + fid + wid);
    var out, index := WriteNames(sources, base);
    recs := [];
    var b := 0;
    while b < |allRefs|
      invariant 0 <= b <= |allRefs| && |recs| == |Flatten(allRefs[..b])| && Recorded(recs, order, sources)
      invariant Written(out, index, Pieces(NamesOf(sources), recs), base)
    {
      ChainIs(allRefs, b);
      out, index, recs := WriteChain(allRefs[b], base, out, index, recs, order, sources);
      b := b + 1;
    }
    assert allRefs[..b] == allRefs;
    file := PutWords([0, fid, wid] + index, out);
  }
}
