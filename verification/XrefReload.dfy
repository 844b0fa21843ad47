/** Saving a cross-reference graph and loading the file gives the same graph, cycles and all. */
module XrefReload {
  import opened Basics
  import opened XrefFile
  import opened XrefStore
  import opened XrefSave
  import XrefLoad

  // ---------- the reloaded graph ----------

  /** `n` is the reloaded form of `s`. */
  ghost predicate Corresponds(order: seq<Sym>, nodes: seq<XrefLoad.Node?>, s: Sym, n: XrefLoad.Node?) {
    n != null && exists m :: 0 <= m < |order| && m < |nodes| && order[m] == s && nodes[m] == n
  }

  /**
   * The links of a reloaded symbol lead to the reloaded forms of the symbols the original's links lead to, in
   * order.
   */
  ghost predicate SameLinks(order: seq<Sym>, nodes: seq<XrefLoad.Node?>, syms: seq<Sym>, links: seq<XrefLoad.Node?>) {
    && |links| == |syms|
    && (forall j :: 0 <= j < |links| ==> Corresponds(order, nodes, syms[j], links[j]))
  }

  /** Symbol `k` and its reloaded form agree in every field and every link. */
  ghost predicate Mirrors(order: seq<Sym>, sources: seq<SourceFile>, nodes: seq<XrefLoad.Node?>, k: nat)
    requires k < |order| == |nodes|
    reads order[k], nodes[k]
  {
    var s, n := order[k], nodes[k];
    && n != null && n.id == k && n.name == s.name && n.line == s.line && FlagsOf(n.flags) == s.flags
    && n.file < |sources| && sources[n.file] == s.file
    && SameLinks(order, nodes, s.calls, n.calls) && SameLinks(order, nodes, s.calledBy, n.calledBy)
  }

  lemma SameLinksFrom(order: seq<Sym>, loader: XrefLoad.Loader, ids: seq<u32>, syms: seq<Sym>,
                      links: seq<XrefLoad.Node?>)
    requires Names(ids, order, syms) && loader.Points(links, ids) && |order| == loader.cache.Length
    requires forall i :: 0 <= i < |loader.db| ==> loader.db[i].Some?
    ensures SameLinks(order, loader.cache[..], syms, links)
  {
    var nodes := loader.cache[..];
    forall j | 0 <= j < |links| ensures Corresponds(order, nodes, syms[j], links[j]) {
      assert order[ids[j]] == syms[j] && nodes[ids[j]] == links[j];
    }
  }

  lemma MirrorsFrom(order: seq<Sym>, sources: seq<SourceFile>, recs: seq<SymRec>, loader: XrefLoad.Loader, k: nat)
    requires k < |recs| == |order| == loader.cache.Length && loader.db == XrefLoad.Stored(recs)
    requires Describes(recs[k], k, order, sources) && loader.Loaded(k)
    ensures Mirrors(order, sources, loader.cache[..], k)
  {
    var n := loader.cache[k];
    assert loader.db[k] == Some(recs[k]);
    FlagRoundTrip(order[k].flags);
    SameLinksFrom(order, loader, recs[k].calls, order[k].calls, n.calls);
    SameLinksFrom(order, loader, recs[k].calledBy, order[k].calledBy, n.calledBy);
  }

  // ---------- what saving writes can be loaded ----------

  lemma SymFits(fs: seq<Name>, rs: seq<SymRec>, k: nat)
    requires k < |rs| && |Image(fs, rs)| < 0x8000_0000
    ensures CountsFit(rs[k])
  {
    SymLength(rs[k]);
    PieceFits(fs, rs, |fs| + k);
  }

  lemma PieceFits(fs: seq<Name>, rs: seq<SymRec>, i: nat)
    requires i < |fs| + |rs|
    ensures |Pieces(fs, rs)[i]| <= |Image(fs, rs)|
  {
    SeekPiece(fs, rs, i);
    var tail := Cat(Pieces(fs, rs)[i + 1..]);
    assert |Pieces(fs, rs)[i] + tail| <= |Image(fs, rs)|;
  }

  predicate AllReadable(fs: seq<Name>, rs: seq<SymRec>) {
    (forall i :: 0 <= i < |fs| ==> |fs[i]| < 0x100) && (forall k :: 0 <= k < |rs| ==> Readable(rs[k]))
  }

  /** The source name that the loader reads at an offset. */
  function NameAt(file: seq<byte>, at: nat): Option<seq<byte>> {
    if at > |file| || GetName(file[at..]).Bad? then None else Some(CString(GetName(file[at..]).val))
  }

  /** Every source name and every record is read as it was written. */
  ghost predicate ReadsBack(file: seq<byte>, fs: seq<Name>, rs: seq<SymRec>) {
    && (forall i :: 0 <= i < |fs| ==> NameAt(file, Index(fs, rs)[3 + i]) == Some(fs[i]))
    && (forall k :: 0 <= k < |rs| ==> XrefLoad.RecordAt(file, Index(fs, rs)[3 + |fs| + k]) == Some(rs[k]))
  }

  /** The exact condition: everything is read as written if and only if all of it is readable. */
  lemma ReadsBackExact(fs: seq<Name>, rs: seq<SymRec>)
    requires |Image(fs, rs)| < 0x8000_0000
    ensures ReadsBack(Image(fs, rs), fs, rs) <==> AllReadable(fs, rs)
  {
    forall i | 0 <= i < |fs| ensures NameAt(Image(fs, rs), Index(fs, rs)[3 + i]) == Some(fs[i]) <==> |fs[i]| < 0x100 {
      SeekName(fs, rs, i);
    }
    forall k | 0 <= k < |rs|
      ensures XrefLoad.RecordAt(Image(fs, rs), Index(fs, rs)[3 + |fs| + k]) == Some(rs[k]) <==> Readable(rs[k])
    {
      RecordExact(fs, rs, k);
    }
  }

  lemma RecordExact(fs: seq<Name>, rs: seq<SymRec>, k: nat)
    requires k < |rs| && |Image(fs, rs)| < 0x8000_0000
    ensures var r := XrefLoad.RecordAt(Image(fs, rs), Index(fs, rs)[3 + |fs| + k]);
      && (r == Some(rs[k]) <==> Readable(rs[k]))
      && (!Readable(rs[k]) ==> r.None? || r.value.name != rs[k].name)
  {
    SymFits(fs, rs, k);
    SeekSym(fs, rs, k);
  }

  /**
   * Whatever a loader makes of a file, a symbol that it holds as the file has it and that mirrors the original
   * had a name under 256 bytes and room for its links: otherwise no load gives the same graph.
   */
  lemma MirroredNameIsShort(order: seq<Sym>, sources: seq<SourceFile>, fs: seq<Name>, recs: seq<SymRec>,
                            loader: XrefLoad.Loader, k: nat)
    requires k < |order| == |recs| == |loader.db| == loader.cache.Length && |Image(fs, recs)| < 0x8000_0000
    requires Describes(recs[k], k, order, sources) && loader.Loaded(k)
    requires loader.db[k] == XrefLoad.RecordAt(Image(fs, recs), Index(fs, recs)[3 + |fs| + k])
    requires Mirrors(order, sources, loader.cache[..], k)
    ensures Loads(order[k])
  {
    RecordExact(fs, recs, k);
  }

  lemma SavedLoads(x: Xref, order: seq<Sym>, fs: seq<Name>, recs: seq<SymRec>)
    requires |recs| == |order| && Recorded(recs, order, x.sources) && |fs| == |x.sources|
    requires |Image(fs, recs)| < 0x8000_0000 && AllReadable(fs, recs)
    ensures XrefLoad.Loadable(fs, recs)
  {
    forall k | 0 <= k < |recs| ensures Storable(recs[k]) {
      SymFits(fs, recs, k);
    }
    var db := XrefLoad.Stored(recs);
    forall k | 0 <= k < |db| && db[k].Some?
      ensures db[k].value.id == k && db[k].value.fid < |fs|
      ensures XrefLoad.InRange(db[k].value.calls, |db|) && XrefLoad.InRange(db[k].value.calledBy, |db|)
    {
      assert db[k].value == recs[k] && Describes(recs[k], k, order, x.sources);
    }
  }

  /** The loader can read the symbol: its name is under 256 bytes and there is room for its links. */
  predicate Loads(s: Sym)
    reads s
  {
    |s.name| < 0x100 && RoomFor(|s.calledBy|)
  }

  predicate AllLoad(syms: seq<Sym>)
    reads set i | 0 <= i < |syms| :: syms[i]
  {
    forall k :: 0 <= k < |syms| ==> Loads(syms[k])
  }

  predicate LoadIn(bs: seq<seq<Sym>>)
    reads set b, j | 0 <= b < |bs| && 0 <= j < |bs[b]| :: bs[b][j]
  {
    forall b :: 0 <= b < |bs| ==> AllLoad(bs[b])
  }

  /** All symbols can be read, and the names of all sources. */
  predicate GraphLoads(x: Xref)
    reads x, set b, j | 0 <= b < |x.allRefs| && 0 <= j < |x.allRefs[b]| :: x.allRefs[b][j]
  {
    LoadIn(x.allRefs) && forall i :: 0 <= i < |x.sources| ==> |x.sources[i].name| < 0x100
  }

  lemma LoadAppend(a: seq<Sym>, b: seq<Sym>)
    ensures AllLoad(a + b) <==> AllLoad(a) && AllLoad(b)
  {
    if AllLoad(a + b) {
      forall k | 0 <= k < |a| ensures Loads(a[k]) { assert (a + b)[k] == a[k]; }
      forall k | 0 <= k < |b| ensures Loads(b[k]) { assert (a + b)[|a| + k] == b[k]; }
    }
  }

  lemma {:induction false} LoadFlat(bs: seq<seq<Sym>>)
    ensures LoadIn(bs) <==> AllLoad(Flatten(bs))
  {
    if bs != [] {
      var m := |bs| - 1;
      var front := bs[..m];
      LoadFlat(front);
      LoadAppend(Flatten(front), bs[m]);
      if LoadIn(bs) {
        forall b | 0 <= b < m ensures AllLoad(front[b]) { assert front[b] == bs[b]; }
        assert AllLoad(bs[m]);
      }
      if LoadIn(front) && AllLoad(bs[m]) {
        forall b | 0 <= b < |bs| ensures AllLoad(bs[b]) { assert b < m ==> bs[b] == front[b]; }
      }
    }
  }

  lemma {:induction false} NamesOfAt(fs: seq<SourceFile>, i: nat)
    requires i < |fs|
    ensures NamesOf(fs)[i] == fs[i].name
  {
    if i < |fs| - 1 { NamesOfAt(fs[..|fs| - 1], i); }
  }

  lemma GraphLoadsExact(x: Xref, recs: seq<SymRec>)
    requires |recs| == |Order(x)| && Recorded(recs, Order(x), x.sources)
    ensures AllReadable(NamesOf(x.sources), recs) <==> GraphLoads(x)
  {
    var order := Order(x);
    LoadFlat(x.allRefs);
    forall i | 0 <= i < |x.sources| ensures NamesOf(x.sources)[i] == x.sources[i].name {
      NamesOfAt(x.sources, i);
    }
    forall k | 0 <= k < |order| ensures Readable(recs[k]) <==> Loads(order[k]) {
      assert Describes(recs[k], k, order, x.sources);
    }
    assert (forall k :: 0 <= k < |recs| ==> Readable(recs[k])) <==> AllLoad(order) by {
      if forall k :: 0 <= k < |recs| ==> Readable(recs[k]) {
        forall k | 0 <= k < |order| ensures Loads(order[k]) { assert Readable(recs[k]); }
      }
    }
  }

  /**
   * Save, then load. Within the signed 32-bit offsets of the source, everything is read as written if and
   * only if all names are under 256 bytes and there is room for all links; then loading ends and every symbol
   * comes back under its id with its name, flags, source, line and both lists of links.
   */
  method SaveAndLoad(x: Xref)
    returns (file: seq<byte>, names: seq<Name>, loader: XrefLoad.Loader?, ghost recs: seq<SymRec>)
    requires x.Valid() && |Order(x)| < 0x8000_0000 && |x.sources| < 0x8000_0000
    modifies x.syms`id, set f | f in x.sources
    ensures x.Valid() && |recs| == |Order(x)| && Recorded(recs, Order(x), x.sources)
    ensures file == Image(NamesOf(x.sources), recs)
    ensures |file| < 0x8000_0000 ==> (ReadsBack(file, NamesOf(x.sources), recs) <==> GraphLoads(x))
    ensures loader != null <==> |file| < 0x8000_0000 && GraphLoads(x)
    ensures loader != null ==> names == NamesOf(x.sources) && SameGraph(Order(x), x.sources, loader)
    ensures loader != null ==> LoadedFrom(loader, recs)
  {
    file, recs := Save(x);
    names, loader := [], null;
    GraphLoadsExact(x, recs);
    if |file| < 0x8000_0000 {
      ReadsBackExact(NamesOf(x.sources), recs);
      if GraphLoads(x) {
        names, loader := Reload(x, Order(x), file, recs);
      }
    }
  }

  ghost predicate SameGraph(order: seq<Sym>, sources: seq<SourceFile>, loader: XrefLoad.Loader)
    reads *
  {
    && loader.cache.Length == |order|
    && forall k :: 0 <= k < |order| ==> Mirrors(order, sources, loader.cache[..], k)
  }

  /** The loader has read these records, in the order of its walk. */
  ghost predicate LoadedFrom(loader: XrefLoad.Loader, recs: seq<SymRec>)
    reads loader, loader.cache
  {
    && |recs| < 0x8000_0000 && XrefLoad.WfDb(XrefLoad.Stored(recs), loader.nfiles)
    && loader.Valid() && loader.db == XrefLoad.Stored(recs)
    && loader.added == XrefLoad.VisitAll(XrefLoad.Stored(recs), [], XrefLoad.Ids(|recs|))
    && forall k :: 0 <= k < |recs| ==> k in loader.added
  }

  /** `xref_load_file` on a file that describes the graph. */
  method Reload(x: Xref, ghost order: seq<Sym>, file: seq<byte>, ghost recs: seq<SymRec>)
    returns (names: seq<Name>, loader: XrefLoad.Loader)
    requires x.Valid() && order == Order(x) && |recs| == |order| && Recorded(recs, order, x.sources)
    requires file == Image(NamesOf(x.sources), recs) && |file| < 0x8000_0000 && AllReadable(NamesOf(x.sources), recs)
    ensures names == NamesOf(x.sources) && SameGraph(order, x.sources, loader) && LoadedFrom(loader, recs)
    ensures x.Valid() && Recorded(recs, order, x.sources)
  {
    SavedLoads(x, order, NamesOf(x.sources), recs);
    names, loader := XrefLoad.LoadFile(file, NamesOf(x.sources), recs);
    forall k | 0 <= k < |order| ensures Mirrors(order, x.sources, loader.cache[..], k) && k in loader.added {
      MirrorsFrom(order, x.sources, recs, loader, k);
      assert loader.Slot(k);
    }
  }

  // ---------- which entry a name finds, before and after ----------

  lemma EarlierBucket(x: Xref, b: nat, m: nat)
    requires x.Valid() && b < 128 && m < |Flatten(x.allRefs[..b])|
    ensures m < |Order(x)| && First(Order(x)[m].name) < b
  {
    var before := Flatten(x.allRefs[..b]);
    FlattenBuckets(x.allRefs, x.history, b);
    FlattenPrefix(x.allRefs, b);
    assert before[m] in before;
  }

  /** Before: among the entries that match, the newest is the one with the lowest id. */
  lemma LookupIsLowestId(x: Xref, name: Name, ignore: Flags, i: nat)
    requires x.Valid() && Ascii(name)
    requires var chain := x.allRefs[First(name)]; i < |chain| && Matches(chain[i], name, ignore)
    requires forall j :: 0 <= j < i ==> !Matches(x.allRefs[First(name)][j], name, ignore)
    ensures var k := |Flatten(x.allRefs[..First(name)])| + i;
      k < |Order(x)| && MostRecent(x.history, name, ignore, Order(x)[k])
      && forall m :: 0 <= m < k ==> !Matches(Order(x)[m], name, ignore)
  {
    var b := First(name);
    var before := Flatten(x.allRefs[..b]);
    FirstInBucket(x.history, name, ignore, i);
    FlattenAt(x.allRefs, b, i);
    forall m | 0 <= m < |before| + i ensures !Matches(Order(x)[m], name, ignore) {
      if m < |before| {
        EarlierBucket(x, b, m);
      } else {
        FlattenAt(x.allRefs, b, m - |before|);
      }
    }
  }

  ghost predicate RecMatches(db: XrefLoad.Db, k: nat, name: Name, ignore: Flags) {
    k < |db| && db[k].Some? && db[k].value.name == name && !Overlaps(FlagsOf(db[k].value.flags), ignore)
  }

  /** After: the newest entry of the reloaded root table is the last one loaded. */
  ghost function LastMatch(db: XrefLoad.Db, added: seq<nat>, name: Name, ignore: Flags): Option<nat> {
    if added == [] then None
    else if RecMatches(db, added[|added| - 1], name, ignore) then Some(added[|added| - 1])
    else LastMatch(db, added[..|added| - 1], name, ignore)
  }

  /** Bucket `b` of the reloaded root table: every symbol is put at its head when it is loaded. */
  ghost function LoadedChain(db: XrefLoad.Db, added: seq<nat>, b: nat): seq<nat> {
    if added == [] then []
    else
      var k, rest := added[|added| - 1], LoadedChain(db, added[..|added| - 1], b);
      if k < |db| && db[k].Some? && First(db[k].value.name) == b then [k] + rest else rest
  }

  /** `xref_find_symbol` walks one chain; its first match is the match loaded last. */
  lemma {:induction false} FirstInLoadedChain(db: XrefLoad.Db, added: seq<nat>, name: Name, ignore: Flags, i: nat)
    requires i <= |LoadedChain(db, added, First(name))|
    requires forall j :: 0 <= j < i ==> !RecMatches(db, LoadedChain(db, added, First(name))[j], name, ignore)
    requires var c := LoadedChain(db, added, First(name)); i < |c| ==> RecMatches(db, c[i], name, ignore)
    ensures var c := LoadedChain(db, added, First(name));
      LastMatch(db, added, name, ignore) == if i < |c| then Some(c[i]) else None
  {
    if added != [] {
      var k, front := added[|added| - 1], added[..|added| - 1];
      var c, c0 := LoadedChain(db, added, First(name)), LoadedChain(db, front, First(name));
      if !(k < |db| && db[k].Some? && First(db[k].value.name) == First(name)) {
        FirstInLoadedChain(db, front, name, ignore, i);
      } else if i > 0 {
        assert !RecMatches(db, c[0], name, ignore);
        forall j | 0 <= j < i - 1 ensures !RecMatches(db, c0[j], name, ignore) { assert c0[j] == c[j + 1]; }
        FirstInLoadedChain(db, front, name, ignore, i - 1);
      }
    }
  }

  /** `a` is loaded before `b`. */
  ghost predicate Before(added: seq<nat>, a: nat, b: nat) {
    exists i, j :: 0 <= i < j < |added| && added[i] == a && added[j] == b
  }

  /** The match loaded last is loaded after every other. */
  lemma {:induction false} LastMatchIsLast(db: XrefLoad.Db, added: seq<nat>, name: Name, ignore: Flags)
    ensures var l := LastMatch(db, added, name, ignore);
      if l.None? then forall m :: m in added ==> !RecMatches(db, m, name, ignore)
      else RecMatches(db, l.value, name, ignore) && l.value in added
           && forall m :: m in added && RecMatches(db, m, name, ignore) && m != l.value ==> Before(added, m, l.value)
  {
    if added != [] {
      var n := |added| - 1;
      var k, front := added[n], added[..n];
      assert added == front + [k];
      if RecMatches(db, k, name, ignore) {
        forall m | m in added && m != k ensures Before(added, m, k) {
          var i :| 0 <= i < |added| && added[i] == m;
          assert added[n] == k;
        }
      } else {
        LastMatchIsLast(db, front, name, ignore);
        forall m, l | Before(front, m, l) ensures Before(added, m, l) {
          var i, j :| 0 <= i < j < |front| && front[i] == m && front[j] == l;
          assert added[i] == m && added[j] == l;
        }
      }
    }
  }

  lemma BeforeIsStrict(added: seq<nat>, a: nat, b: nat, n: nat)
    requires XrefLoad.Seen(added, n) && Before(added, a, b)
    ensures !Before(added, b, a) && a != b
  {
  }

  /** A record matches when its symbol does. */
  lemma RecMatchesSym(x: Xref, recs: seq<SymRec>, k: nat, name: Name, ignore: Flags)
    requires x.Valid() && k < |recs| == |Order(x)| && Recorded(recs, Order(x), x.sources)
    ensures RecMatches(XrefLoad.Stored(recs), k, name, ignore) <==> Matches(Order(x)[k], name, ignore)
  {
    assert Describes(recs[k], k, Order(x), x.sources);
    FlagRoundTrip(Order(x)[k].flags);
  }

  /** The lookup before saving, as a position in the order of ids. */
  lemma FirstId(x: Xref, name: Name, ignore: Flags, first: nat)
    requires x.Valid() && Ascii(name) && first < |Order(x)| && MostRecent(x.history, name, ignore, Order(x)[first])
    ensures Matches(Order(x)[first], name, ignore) && forall m :: 0 <= m < first ==> !Matches(Order(x)[m], name, ignore)
  {
    var chain := x.allRefs[First(name)];
    var i := FirstMatchIn(chain, name, ignore);
    FirstInBucket(x.history, name, ignore, i);
    MostRecentUnique(x.history, name, ignore, Order(x)[first], if i < |chain| then chain[i] else null);
    LookupIsLowestId(x, name, ignore, i);
    var k := |Flatten(x.allRefs[..First(name)])| + i;
    MostRecentUnique(x.history, name, ignore, Order(x)[first], Order(x)[k]);
    OrderIsAll(x);
    assert k == first;
    FlattenAt(x.allRefs, First(name), i);
  }

  lemma {:induction false} FirstMatchIn(chain: seq<Sym>, name: Name, ignore: Flags) returns (i: nat)
    ensures i <= |chain| && (i < |chain| ==> Matches(chain[i], name, ignore))
    ensures forall j :: 0 <= j < i ==> !Matches(chain[j], name, ignore)
  {
    if chain == [] || Matches(chain[0], name, ignore) {
      i := 0;
    } else {
      var k := FirstMatchIn(chain[1..], name, ignore);
      i := k + 1;
      assert forall j :: 0 < j < i ==> chain[j] == chain[1..][j - 1];
    }
  }

  /**
   * For every graph, with any links: after loading, a name finds the match that the walk loaded last; it
   * found the match of lowest id before saving; and the two agree if and only if the walk loads every
   * other match before that one.
   */
  lemma LookupAfterReload(x: Xref, recs: seq<SymRec>, loader: XrefLoad.Loader, name: Name, ignore: Flags, first: nat)
    returns (last: nat)
    requires x.Valid() && |recs| == |Order(x)| && Recorded(recs, Order(x), x.sources) && LoadedFrom(loader, recs)
    requires Ascii(name) && first < |Order(x)| && MostRecent(x.history, name, ignore, Order(x)[first])
    ensures forall m :: 0 <= m < first ==> !Matches(Order(x)[m], name, ignore)
    ensures last < |Order(x)| && Matches(Order(x)[last], name, ignore)
    ensures LastMatch(loader.db, loader.added, name, ignore) == Some(last)
    ensures forall m :: 0 <= m < |Order(x)| && m != last && Matches(Order(x)[m], name, ignore) ==>
      Before(loader.added, m, last)
    ensures last == first <==>
      forall m :: 0 <= m < |Order(x)| && m != first && Matches(Order(x)[m], name, ignore) ==>
        Before(loader.added, m, first)
  {
    var db, added, order := loader.db, loader.added, Order(x);
    FirstId(x, name, ignore, first);
    forall k | 0 <= k < |recs| ensures RecMatches(db, k, name, ignore) <==> Matches(order[k], name, ignore) {
      RecMatchesSym(x, recs, k, name, ignore);
    }
    LastMatchIsLast(db, added, name, ignore);
    last := LastMatch(db, added, name, ignore).value;
    if last != first {
      assert Before(added, first, last);
      BeforeIsStrict(added, first, last, |db|);
    }
  }

  /** In particular a name with one visible entry still finds it. */
  lemma UniqueNameFound(x: Xref, recs: seq<SymRec>, loader: XrefLoad.Loader, name: Name, ignore: Flags, first: nat)
    requires x.Valid() && |recs| == |Order(x)| && Recorded(recs, Order(x), x.sources) && LoadedFrom(loader, recs)
    requires Ascii(name) && first < |Order(x)| && MostRecent(x.history, name, ignore, Order(x)[first])
    requires forall m :: 0 <= m < |Order(x)| && m != first ==> !Matches(Order(x)[m], name, ignore)
    ensures LastMatch(loader.db, loader.added, name, ignore) == Some(first)
  {
    var last := LookupAfterReload(x, recs, loader, name, ignore, first);
  }

  /** A name that found nothing finds nothing. */
  lemma NothingAfterReload(x: Xref, recs: seq<SymRec>, loader: XrefLoad.Loader, name: Name, ignore: Flags)
    requires x.Valid() && |recs| == |Order(x)| && Recorded(recs, Order(x), x.sources) && LoadedFrom(loader, recs)
    requires Ascii(name) && MostRecent(x.history, name, ignore, null)
    ensures LastMatch(loader.db, loader.added, name, ignore) == None
  {
    FlattenBuckets(x.allRefs, x.history, 128);
    assert x.allRefs[..128] == x.allRefs;
    LastMatchIsLast(loader.db, loader.added, name, ignore);
    var l := LastMatch(loader.db, loader.added, name, ignore);
    if l.Some? {
      RecMatchesSym(x, recs, l.value, name, ignore);
      assert Order(x)[l.value] in Flatten(x.allRefs);
      NoMatch(x.history, name, ignore, Order(x)[l.value]);
    }
  }

  lemma {:induction false} NoMatch(h: seq<Sym>, name: Name, ignore: Flags, s: Sym)
    requires MostRecent(h, name, ignore, null) && s in h
    ensures !Matches(s, name, ignore)
  {
    if s != h[|h| - 1] { NoMatch(h[..|h| - 1], name, ignore, s); }
  }

  // ---------- redefinitions ----------

  ghost predicate LinkFree(db: XrefLoad.Db) {
    forall k :: 0 <= k < |db| ==> db[k].Some? && db[k].value.calls == [] && db[k].value.calledBy == []
  }

  /** Without links, symbols are loaded by increasing id. */
  lemma {:induction false} LinkFreeOrder(db: XrefLoad.Db, nfiles: nat, ids: seq<u32>)
    requires XrefLoad.WfDb(db, nfiles) && LinkFree(db) && |ids| <= |db|
    requires forall i :: 0 <= i < |ids| ==> ids[i] == i
    ensures XrefLoad.VisitAll(db, [], ids) == ids
  {
    if ids != [] {
      var n := |ids| - 1;
      var front, id := ids[..n], ids[n];
      LinkFreeOrder(db, nfiles, front);
      VisitPlain(db, nfiles, front, id);
      XrefLoad.VisitMore(db, [], front, id);
      assert ids == front + [id];
    }
  }

  /** Then a name finds its match of highest id, the oldest one: redefinitions are reversed. */
  lemma RedefinitionsAreReversed(db: XrefLoad.Db, nfiles: nat, name: Name, ignore: Flags, k: nat)
    requires |db| < 0x8000_0000 && XrefLoad.WfDb(db, nfiles) && LinkFree(db)
    requires RecMatches(db, k, name, ignore) && forall m :: k < m < |db| ==> !RecMatches(db, m, name, ignore)
    ensures LastMatch(db, XrefLoad.VisitAll(db, [], XrefLoad.Ids(|db|)), name, ignore) == Some(k)
  {
    var ids := XrefLoad.Ids(|db|);
    LinkFreeOrder(db, nfiles, ids);
    LastMatchIsLast(db, ids, name, ignore);
    assert k == ids[k];
  }

  /** A definition with its links. */
  function Def(id: u32, name: Name, calls: seq<u32>, calledBy: seq<u32>): SymRec {
    SymRec(id, 1, name, 0, 0, calls, calledBy)
  }

  /** Both ends of every link are recorded, as the events that build a graph do. */
  ghost predicate Mutual(db: XrefLoad.Db) {
    forall i: u32, j: u32 {:trigger db[i], db[j]} :: i < |db| && j < |db| && db[i].Some? && db[j].Some? ==>
      (j in db[i].value.calls <==> i in db[j].value.calledBy)
  }

  /** Two definitions behind a symbol that calls the older one: that one is loaded first, and the newer is found. */
  lemma RedefinitionKept(name: Name, caller: Name, ignore: Flags, db: XrefLoad.Db)
    requires !ignore.definition &&
      db == XrefLoad.Stored([Def(0, caller, [2], []), Def(1, name, [], []), Def(2, name, [], [0])])
    ensures XrefLoad.WfDb(db, 1) && Mutual(db) && RecMatches(db, 1, name, ignore) && RecMatches(db, 2, name, ignore)
    ensures LastMatch(db, XrefLoad.VisitAll(db, [], XrefLoad.Ids(|db|)), name, ignore) == Some(1)
  {
    KeptDb(db, name, caller);
    CallerFirst(db);
    LoadedLast(db, [0, 2], 1, name, ignore);
  }

  lemma KeptDb(db: XrefLoad.Db, name: Name, caller: Name)
    requires db == XrefLoad.Stored([Def(0, caller, [2], []), Def(1, name, [], []), Def(2, name, [], [0])])
    ensures |db| == 3 && XrefLoad.WfDb(db, 1) && Mutual(db)
    ensures db[0] == Some(Def(0, caller, [2], [])) && db[1] == Some(Def(1, name, [], [])) &&
      db[2] == Some(Def(2, name, [], [0]))
  {
  }

  /** A file in which symbol 0 calls symbol 2 and nothing else is linked is loaded in the order 0, 2, 1. */
  lemma CallerFirst(db: XrefLoad.Db)
    requires |db| == 3 && XrefLoad.WfDb(db, 1) && forall k :: 0 <= k < |db| ==> db[k].Some?
    requires db[0].value.calls == [2] && db[1].value.calls == [] && db[2].value.calls == []
    requires db[0].value.calledBy == [] && db[1].value.calledBy == [] && db[2].value.calledBy == [0]
    ensures XrefLoad.VisitAll(db, [], XrefLoad.Ids(|db|)) == [0, 2] + [1]
  {
    CallerThenCalled(db, 0, 2, [0]);
    VisitPlain(db, 1, [0, 2], 1);
    ThreeIds(db);
  }

  lemma CallerThenCalled(db: XrefLoad.Db, i: nat, j: u32, seen: seq<nat>)
    requires XrefLoad.WfDb(db, 1) && i < |db| && j < |db| && i != j && i < 0x8000_0000 && seen == [i]
    requires db[i].Some? && db[i].value.calls == [j] && db[i].value.calledBy == []
    requires db[j].Some? && db[j].value.calls == [] && db[j].value.calledBy == [i]
    ensures XrefLoad.Visit(db, [], i) == seen + [j]
  {
    VisitCaller(db, [], i, j);
    assert [] + [i] == seen;
    VisitCalled(db, seen, j, i);
  }

  /** A symbol whose only link leads back to one that has been loaded. */
  lemma VisitCalled(db: XrefLoad.Db, seen: seq<nat>, k: nat, c: u32)
    requires XrefLoad.WfDb(db, 1) && XrefLoad.Seen(seen, |db|) && k < |db| && k !in seen && c in seen && c < |db|
    requires db[k].Some? && db[k].value.calls == [] && db[k].value.calledBy == [c]
    ensures XrefLoad.Visit(db, seen, k) == seen + [k]
  {
    XrefLoad.SeenMore(seen, k, |db|);
    assert XrefLoad.VisitAll(db, seen + [k], []) == seen + [k];
    VisitOne(db, seen + [k], c);
    assert c in seen + [k];
  }

  lemma LoadedLast(db: XrefLoad.Db, front: seq<nat>, k: nat, name: Name, ignore: Flags)
    requires RecMatches(db, k, name, ignore)
    ensures LastMatch(db, front + [k], name, ignore) == Some(k)
  {
  }

  lemma VisitPlain(db: XrefLoad.Db, nfiles: nat, seen: seq<nat>, k: nat)
    requires XrefLoad.WfDb(db, nfiles) && XrefLoad.Seen(seen, |db|) && k < |db| && k !in seen
    requires db[k].Some? && db[k].value.calls == [] && db[k].value.calledBy == []
    ensures XrefLoad.Visit(db, seen, k) == seen + [k]
  {
    XrefLoad.SeenMore(seen, k, |db|);
    assert XrefLoad.VisitAll(db, seen + [k], []) == seen + [k];
  }

  lemma VisitCaller(db: XrefLoad.Db, seen: seq<nat>, k: nat, c: u32)
    requires XrefLoad.WfDb(db, 1) && XrefLoad.Seen(seen, |db|) && k < |db| && k !in seen && c < |db|
    requires db[k].Some? && db[k].value.calls == [c] && db[k].value.calledBy == []
    ensures XrefLoad.Seen(seen + [k], |db|) && XrefLoad.Visit(db, seen, k) == XrefLoad.Visit(db, seen + [k], c)
  {
    XrefLoad.SeenMore(seen, k, |db|);
    VisitOne(db, seen + [k], c);
    var r := XrefLoad.Visit(db, seen + [k], c);
    assert XrefLoad.VisitAll(db, r, []) == r;
  }

  lemma VisitOne(db: XrefLoad.Db, seen: seq<nat>, k: u32)
    requires XrefLoad.WfDb(db, 1) && XrefLoad.Seen(seen, |db|) && k < |db|
    ensures XrefLoad.VisitAll(db, seen, [k]) == XrefLoad.Visit(db, seen, k)
  {
    assert [k][..0] == [];
    assert XrefLoad.VisitAll(db, seen, []) == seen;
  }

  /** Nothing is loaded for an id that has been loaded. */
  lemma ThreeIds(db: XrefLoad.Db)
    requires |db| == 3 && XrefLoad.WfDb(db, 1)
    ensures var two := XrefLoad.Visit(db, XrefLoad.Visit(db, [], 0), 1);
      2 in two ==> XrefLoad.VisitAll(db, [], XrefLoad.Ids(|db|)) == two
  {
    var two := XrefLoad.Visit(db, XrefLoad.Visit(db, [], 0), 1);
    assert XrefLoad.Ids(|db|)[..2] == [0, 1] && [0 as u32, 1][..1] == [0];
    VisitOne(db, [], 0);
    assert XrefLoad.VisitAll(db, [], [0, 1]) == two;
  }
}
